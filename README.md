# GoGen solver, modelled in Dafny

GoGen is a 5x5 letter puzzle. Each of the letters A to Y goes in exactly one
cell. Some cells are given. A list of words must be traceable on the grid,
with consecutive letters of a word in touching cells (king moves). The
solver in `Program.cs` works by constraint propagation, as follows.

* `BuildRequiredConnectionsFromWords` reads the words and builds the set of
  letter pairs that must touch.
* `Main` calls `Solve` until it returns false. Each call does three things:
  1. It gives every unsolved node a fresh candidate list: the letters not
     yet on the board.
  2. It prunes these lists against every solved node, using two rules:
     * the direct rule: a letter that must touch the solved letter has to
       sit next to it;
     * the two-hop rule: a letter joined to the solved letter through a
       third letter has to sit within two king moves of it.
  3. It commits at most one letter:
     * rule 1: the first remaining letter that only one unsolved node can
       take;
     * rule 2, used only when rule 1 finds nothing: the first unsolved
       node, in row-major order, with one candidate left.

The model is in two layers.

* The value layer specifies what one call of `Solve` computes.
  * `Geometry` covers cells, king-move adjacency and the two-hop region.
  * `Seqs` covers LINQ's `Except` and `Distinct`, `List.Remove`, and
    filtering.
  * `Connections` covers the connection set.
  * `Deduction` covers the remaining letters, the candidates, the two
    rules, and one round, `SolveRound`.
  * `Pruning` covers the stages of the pruning loops.
* The imperative layer is `Solver`.
  * It holds the board as an `array2<Node>` indexed `[column, row]`, with
    `Node` a class whose `letter` and `possibleLetters` fields are updated
    in place.
  * `Solve` and its loops are methods proved against the value layer:
    `Letters` and `Possible` read the board as two row-major sequences.
    After `Solve`, these sequences and the returned flag are exactly
    `SolveRound` of their old values.
  * `Node.Solved` is the predicate `letter != ' '`.

Proved about the value layer:

* **Candidates.** A letter remains a candidate of an unsolved cell exactly
  when it is not yet placed and every solved node permits it. A solved
  node permits it when both of these hold:
  * it is a king move away whenever the pair is a connection;
  * it is at most two moves away whenever the pair is joined through a
    third letter.
* **Shape of the lists.** Each candidate list is a duplicate-free
  subsequence of the remaining letters. The remaining letters are in
  alphabet order.
* **The two rules.** Each rule picks what it picks exactly when the
  first-match condition holds, and finds nothing exactly when no letter
  (or no cell) qualifies.
* **One round.**
  * It solves at most one unsolved cell, and only with a letter not yet
    placed.
  * When the blank is not a letter, as in `Main`, it returns true exactly
    when it solves one.
  * It keeps every placed letter, and it never creates a duplicate letter.
  * A round that returns false leaves a fixpoint.
* **The loop in `Main`.** `Run` applies one round after another from the
  starting board. The board the loop leaves is the round that follows the
  last step of `Run` whose call returned true. It stops after at most as
  many successful rounds as there were unsolved cells.
* **No connections.** Without connections, a board with at least two
  unsolved cells and at least two remaining letters stalls at once.

## Model

| member | source | states |
|---|---|---|
| Geometry.Neighbours | Program.cs:210-225 | the cells around p in the 1..8 order of the diagram; its members are given by `NeighboursMembers`, its order by `NeighboursOrdered` and its size by `NeighbourCount` |
| Geometry.NeighboursMembers | Program.cs:210-225 | q is a neighbour of p exactly when q is on the board and one king move from p |
| Geometry.NeighboursOrdered | Program.cs:212-224 | the neighbours come in strictly increasing row-major order, the 1..8 order of the diagram |
| Geometry.NeighbourCount | Program.cs:215-224 | a cell is not its own neighbour, no neighbour is listed twice, and there are 3 for a corner, 5 for another edge cell and 8 for an interior cell |
| Geometry.NeighboursSymmetric | Program.cs:215-224 | q is a neighbour of p exactly when p is a neighbour of q |
| Geometry.FlatNeighbours | Program.cs:164 | `SelectMany`: x is listed exactly when x is a neighbour of some cell of the input |
| Geometry.NeighboursOfNeighbours | Program.cs:162-165 | x is listed exactly when it neighbours some input cell, and no cell is listed twice |
| Geometry.TwoHopRegion | Program.cs:162-165 | the neighbours of the neighbours of s are exactly the on-board cells within two king moves of s, s included |
| Connections.BuildRequiredConnectionsFromWords | Program.cs:48-61 | (a, b) is in the set exactly when a directly follows b or b directly follows a in some word; the set is symmetric |
| Seqs.FirstIndex | Program.cs:114 | the search of `List.Remove`: the index of the first occurrence of x, or the length when x does not occur |
| Seqs.RemoveFirst | Program.cs:114 | `List.Remove`: when the letter is in the list, its first occurrence is deleted and the other entries keep their order; otherwise the list is unchanged |
| Seqs.RemoveFirstCons | Program.cs:114 | on a non-empty list, `Remove` deletes the head when it is the letter and otherwise searches the tail |
| Seqs.RemoveFirstSkip | Program.cs:114 | past a head that is not the letter, `Remove` keeps the head and removes the first occurrence from the tail |
| Seqs.NoDuplicatesIff | Program.cs:95 | a list has no duplicates, as `Except` and `Distinct` return, exactly when distinct positions hold distinct elements |
| Seqs.Except | Program.cs:95 | LINQ `Except`: x is in the result exactly when it is in the first list and not the second, with no duplicates |
| Seqs.Distinct | Program.cs:164 | LINQ `Distinct`: the same members as the input, without duplicates |
| Seqs.RemoveFirstDistinct | Program.cs:128 | on a list without duplicates, `Remove` takes out every occurrence of the letter |
| Seqs.DropTwice | Program.cs:122-131 | removing a letter that is already gone changes nothing, so the two-hop rule firing several times equals firing once |
| Seqs.ExceptFromDistinct | Program.cs:95 | on a duplicate-free list, `Except` is an order-keeping filter |
| Deduction.AllLetters | Program.cs:36-38 | `allLetters` has 25 letters, exactly 'A'..'Y', in strictly increasing order |
| Deduction.SolvedCells | Program.cs:181-193 | a cell is listed exactly when it is on the board and solved; the list is in row-major order |
| Deduction.UnsolvedCells | Program.cs:167-179 | a cell is listed exactly when it is on the board and unsolved; the list is in row-major order |
| Deduction.SolvedLetters | Program.cs:93 | the letters of the solved cells in scan order; its members are given by `SolvedLettersMembers` |
| Deduction.SolvedLettersMembers | Program.cs:93 | x is a solved letter exactly when x is not blank and stands on the board |
| Deduction.Remaining | Program.cs:95 | `allLetters.Except(solvedLetters)`; its members are given by `RemainingMembers` and its order by `RemainingInAlphabetOrder` |
| Deduction.RemainingMembers | Program.cs:95 | x remains exactly when it is in the alphabet and on no solved node; the remaining letters have no duplicates |
| Deduction.RemainingInAlphabetOrder | Program.cs:95 | with the alphabet A..Y, `remainingLetters` is the alphabet minus the letters on the board, in alphabet order |
| Deduction.HoldersAmong | Program.cs:138 | `possibles`: a cell is listed exactly when it is one of the given cells and its list holds the letter; when the given cells are in scan order, so are the holders, so none is listed twice |
| Deduction.OneOrdered | Program.cs:138-139 | a list in scan order whose every entry is q, and which holds q, is just [q] |
| Deduction.SoleHolderIff | Program.cs:138-139 | over cells in scan order, the holders of a letter are exactly [q] when q is its one and only holder, so `possibles.Count() == 1` holds exactly when some single cell is the letter's only holder |
| Deduction.PermitsByDistance | Program.cs:106-131 | a solved node permits a letter at p exactly when p is one king move from it if the letters are connected directly, and at most two moves from it if they are connected through a third letter |
| Deduction.Candidates | Program.cs:102-133 | the remaining letters that every solved node permits at p, in remaining order; what it contains is given by `CandidateIff` and its shape by `CandidatesShape` |
| Deduction.CandidateIff | Program.cs:102-133 | after pruning, a letter is a candidate of unsolved cell p exactly when it remains and every solved node keeps it at p by the direct and two-hop distance rules |
| Deduction.CandidatesShape | Program.cs:97-133 | every candidate list is a duplicate-free subsequence of the remaining letters: pruning only removes entries |
| Deduction.FirstUnique | Program.cs:136-147 | rule 1; what it picks is given by `FirstUniqueIff` and `FirstUniqueSole`, and when it picks nothing by `FirstUniqueNone` |
| Deduction.FirstUniqueIff | Program.cs:136-147 | rule 1 yields (cell, letter) exactly when that letter is the first whose only holder is that cell |
| Deduction.FirstUniqueSole | Program.cs:136-147 | over unsolved cells in scan order, rule 1 yields (cell, letter) exactly when the letter is the first remaining one whose only holder is a single cell, and that cell is the one |
| Deduction.FirstUniqueNone | Program.cs:136-147 | rule 1 yields nothing exactly when no remaining letter has exactly one holder |
| Deduction.FirstSingle | Program.cs:150-157 | rule 2; what it picks is given by `FirstSingleIff`, and when it picks nothing by `FirstSingleNone` |
| Deduction.FirstSingleIff | Program.cs:150-157 | rule 2 yields (cell, letter) exactly when the cell's list is just that letter and no earlier unsolved cell has a one-letter list |
| Deduction.FirstSingleNone | Program.cs:150-157 | rule 2 yields nothing exactly when no unsolved cell has a one-letter list |
| Deduction.Decide | Program.cs:136-157 | rule 1, or rule 2 when rule 1 finds nothing; what it commits is checked by `DecideSound` |
| Deduction.DecideSound | Program.cs:136-157 | the cell the rules commit is one of the unsolved cells, and the letter is on its list |
| Deduction.Pruned | Program.cs:97-133 | every node's list after reset and pruning; its content is given by `PrunedCells` |
| Deduction.PrunedCells | Program.cs:97-133 | after reset and pruning, solved nodes keep their lists and every unsolved node holds its candidates |
| Deduction.SolveRound | Program.cs:91-160 | the letters, lists and result of one call of `Solve`; its cases are given by `SolveRoundCases` and its effect by `SolveRoundChange` |
| Deduction.SolveRoundCases | Program.cs:91-160 | with no decision the round returns false and changes only lists; otherwise it writes the chosen letter to the chosen unsolved cell, clears its list, and returns true |
| Deduction.SolveRoundChange | Program.cs:91-160 | a round keeps the letters and lists of solved cells; with progress it fills exactly one blank cell, with a remaining letter, and clears its list; without progress the letters are unchanged |
| Deduction.PrunedIgnoresUnsolved | Program.cs:97-100 | the old lists of unsolved nodes have no effect on the round |
| Deduction.StalledIsFixpoint | Program.cs:40-43 | after a round that returns false, another round returns false and changes nothing |
| Deduction.SolveRoundNoDuplicates | Program.cs:136-157 | if no letter stood on two cells before a round, none does after it |
| Deduction.SolveRoundProgress | Program.cs:136-159 | with the blank not in the alphabet, a round that returns true leaves one unsolved cell fewer, and one that returns false leaves the same number |
| Deduction.RoundKeeps | Program.cs:40-43 | from any board reached from a start board, a round keeps the start's letters, keeps it free of duplicates if the start was, and lowers the unsolved count by one exactly when it returns true |
| Deduction.Run | Program.cs:40-43 | the board and flag after n calls of `Solve` in `Main`'s loop, each call on the board the one before left and none after a call that returned false; the start's letters stay, no duplicate appears, and with the blank not a letter, while calls return true, each solved one cell, so n is at most the number of cells unsolved at the start |
| Deduction.RunStep | Program.cs:40-43 | while the calls return true, call n + 1 is `SolveRound` on the board call n left |
| Deduction.RunEnds | Program.cs:40-43 | when call n + 1 returns false after n calls that returned true, its board is a fixpoint of `Solve`, keeps the start's letters, has no duplicate if the start had none, and n is the number of cells solved, at most 25 |
| Deduction.EveryCellHolds | Program.cs:138 | when every listed cell can take a letter, all of them are its holders |
| Deduction.NoConnectionsKeepAll | Program.cs:102-133 | with no connections, every unsolved node keeps all remaining letters |
| Deduction.NoRuleFires | Program.cs:136-159 | when two or more cells all hold the same list of two or more letters, neither rule fires |
| Deduction.NoConnectionsStall | Program.cs:91-160 | with no connections, at least two unsolved cells and at least two remaining letters, `Solve` returns false |
| Pruning.StageStart | Program.cs:97-100 | the reset list equals the kept list of the stage before any letter is handled |
| Pruning.StageStep | Program.cs:104-131 | handling solved node j for letter i removes that letter exactly when the node does not permit it |
| Pruning.StageNext | Program.cs:102-104 | once letter i has met every solved node, its stage is the starting stage of letter i + 1 |
| Pruning.PermitsAllIff | Program.cs:104-131 | every solved node, taken in scan order, permits a letter at p exactly when the letter is allowed at p |
| Pruning.StageEnd | Program.cs:102-133 | after the last letter, the kept list is the candidate list |
| Solver.Node.constructor | Program.cs:205-209 | a new node has the given column and row, a blank letter and an empty list |
| Solver.Node.Solved | Program.cs:199 | `Letter != ' '`; the scans pick the solved or unsolved nodes by it, and `ScanStep` states which node joins |
| Solver.Node.Neighbours | Program.cs:210-225 | the nodes standing at `Geometry.Neighbours` of this node's cell, in that order, so the node at k is among them exactly when its cell is one king move away |
| Solver.CreateEmptyBoard | Program.cs:63-75 | a fresh 5x5 board of fresh nodes, each at its own column and row, all blank |
| Solver.Scan | Program.cs:167-193 | the scan yields the nodes at the solved (or unsolved) cells, in row-major order |
| Solver.ScanRow | Program.cs:171-177 | the inner column loop extends the scan by row r |
| Solver.ScanStep | Program.cs:173-176 | the node at (c, r) is appended exactly when its state matches |
| Solver.AllSolvedNodes | Program.cs:181-193 | the result is the nodes at `SolvedCells`, in order |
| Solver.AllUnsolvedNodes | Program.cs:167-179 | the result is the nodes at `UnsolvedCells`, in order |
| Solver.SetList | Program.cs:99 | only the list of the node at p changes, to the given one |
| Solver.Commit | Program.cs:143-144 | the node at p gets the letter and an empty list; nothing else changes |
| Solver.ResetCandidates | Program.cs:97-100 | every unsolved node's list becomes the remaining letters; solved nodes and all letters are unchanged |
| Solver.RemoveLetter | Program.cs:112-115 | each target node loses the letter by `List.Remove`; nothing else changes |
| Solver.RemoveOutside | Program.cs:126-129 | every unsolved node outside the kept region loses the letter; the letter is removed at most once per list |
| Solver.ApplyConstraints | Program.cs:106-131 | for one letter and one solved node, the letter leaves exactly the unsolved lists at cells the solved node does not permit |
| Solver.ApplyTwoHop | Program.cs:120-131 | the rule fires exactly when the letter and the solved letter are joined through a third letter, and then strikes every unsolved cell outside the two-step region |
| Solver.StruckIff | Program.cs:110-131 | a cell is struck by the direct or the two-hop rule exactly when it is unsolved and the solved node does not permit the letter there |
| Solver.PruneLetter | Program.cs:104-132 | one pass over the solved nodes moves every unsolved list from the stage before letter i to the stage after it |
| Solver.PruneAgainst | Program.cs:104-131 | solved node j, applied to letter i, moves every unsolved list from stage (i, j) to stage (i, j + 1), letters unchanged |
| Solver.PruneStep | Program.cs:104-132 | one solved node moves the unsolved lists from stage (i, j) to stage (i, j + 1) |
| Solver.Prune | Program.cs:102-133 | starting from reset lists, the pruning loops leave exactly the `Pruned` lists and unchanged letters |
| Solver.HoldersNodesStep | Program.cs:138 | one step of the `Where`: the node at the next unsolved cell joins the result exactly when its list holds the letter |
| Solver.NodesHolding | Program.cs:138 | the result is the nodes at the unsolved cells whose lists hold the letter, in order |
| Solver.LettersOfSolved | Program.cs:93 | `solvedLetters`: the letters of the nodes `AllSolvedNodes` lists are the board's solved letters in scan order, the list `Remaining` is built from |
| Solver.ResetAndPrune | Program.cs:93-133 | returns the remaining letters and leaves every unsolved node holding its candidates, letters unchanged |
| Solver.FindUniqueLetter | Program.cs:136-147 | the result is rule 1 on the board |
| Solver.FindSingleLetter | Program.cs:150-157 | the result is rule 2 on the board |
| Solver.Solve | Program.cs:91-160 | the new letters, the new lists and the returned flag are exactly `SolveRound` of the old letters and lists |
| Solver.SolveUntilStalled | Program.cs:36-43 | with the letters A..Y, the final board is the one `Run` reaches after the `rounds` calls that returned true, followed by the one call that returned false; it is a fixpoint of `Solve`, keeps the placed letters, creates no duplicate, and `rounds` equals the number of cells solved, at most 25 |
| Solver.SolveTurn | Program.cs:40 | one test of `while (Solve(...))`: if it returns true, the board is step `rounds + 1` of `Run` and fewer than 25 cells were solved before it; if false, the board is the round after step `rounds` of `Run` and a fixpoint, with the placed letters kept, no duplicate, and `rounds` cells solved |

## Left out

- `Display` and the `Console.WriteLine` trace lines (Program.cs:77-89, 142, 153): console output, no logic.
- The seed letters and the word list in `Main` (Program.cs:11-34): these are inputs. `SolveUntilStalled` takes any board and any connection set.
- The `"X-Y"` string form of a connection: a connection is the pair `(X, Y)`. `StartsWith(letter)` and `c[^1]` are its first and second components.
- LINQ laziness and reference equality. The scans, `Except` and `Where` are read eagerly. While they are consumed, no letter changes, so the result is the same. A node is identified with its place (column, row) on the board.
- The order of the `HashSet` of connections. In `ApplyTwoHop`, the letters reached from `letter` are visited in an arbitrary order, and each removal is idempotent, so the order has no effect.
- Solver.Node.constructor: `PossibleLetters` starts as `null` in the source. The model uses the empty list. The lists of seeded nodes are never read, and unsolved nodes are reset before any use.
- Solver.CreateEmptyBoard: a Dafny array of objects needs an initial element, so one extra filler node is allocated and then replaced at every place.
- Solver.Solve: takes `allLetters` as a parameter, as the source does. Only `SolveUntilStalled` fixes it to A..Y. Termination needs the blank not to be a letter (`Blank !in allLetters`).
- Solver.ApplyConstraints reads the solved node's letter once. The source reads it twice (Program.cs:110, 124), but no letter changes in between.
- Letters are Dafny `char`s, which are Unicode scalar values. In C#, `char` and `word[i]` (Program.cs:55) are UTF-16 code units. For the letters A..Y and the words built from them the two agree.
