/** The Towers of Hanoi workload: the generated moves are legal and complete, and the generated steps can be
    executed in one order only.  (scripts/gen_hanoi.py) */
module Hanoi {
  import opened Text
  import opened MoleculeSteps
  import opened StepGraph
  import opened Molecule

  datatype Peg = A | B | C

  datatype Move = Move(disk: nat, src: Peg, tgt: Peg)

  /** The disks on each peg, bottom first. */
  type Board = map<Peg, seq<nat>>

  // ---------- The game ----------

  /** A disk may leave a peg only from the top, and may land only on an empty peg or on a larger disk. */
  predicate Legal(board: Board, m: Move) {
    && m.src in board && m.tgt in board && m.src != m.tgt
    && board[m.src] != [] && board[m.src][|board[m.src]| - 1] == m.disk
    && (board[m.tgt] == [] || board[m.tgt][|board[m.tgt]| - 1] > m.disk)
  }

  function Shift(board: Board, m: Move): Board
    requires Legal(board, m)
  {
    var from := board[m.src];
    board[m.src := from[..|from| - 1]][m.tgt := board[m.tgt] + [m.disk]]
  }

  /** The board after the moves, or none if one of them is illegal. */
  function Play(board: Board, moves: seq<Move>): Option<Board>
    decreases moves
  {
    if moves == [] then Some(board)
    else if Legal(board, moves[0]) then Play(Shift(board, moves[0]), moves[1..])
    else None
  }

  /** Disks n, n-1, ..., 1, largest at the bottom. */
  function Tower(n: nat): seq<nat> {
    if n == 0 then [] else [n] + Tower(n - 1)
  }

  // ---------- The generator ----------

  function Solution(n: nat, src: Peg, tgt: Peg, aux: Peg): seq<Move>
    requires n >= 1
  {
    if n == 1 then [Move(1, src, tgt)]
    else Solution(n - 1, src, aux, tgt) + [Move(n, src, tgt)] + Solution(n - 1, aux, tgt, src)
  }

  /** The list the nested solve appends to. */
  class MoveList {
    var moves: seq<Move>

    constructor ()
      ensures moves == []
    {
      moves := [];
    }

    method Solve(n: nat, src: Peg, tgt: Peg, aux: Peg)
      requires n >= 1
      modifies this
      ensures moves == old(moves) + Solution(n, src, tgt, aux)
      decreases n
    {
      if n == 1 {
        moves := moves + [Move(1, src, tgt)];
      } else {
        Solve(n - 1, src, aux, tgt);
        moves := moves + [Move(n, src, tgt)];
        Solve(n - 1, aux, tgt, src);
      }
    }
  }

  /** With no disk the script recurses forever, so n is at least 1. */
  method HanoiMoves(n: nat, source: Peg, target: Peg, auxiliary: Peg) returns (moves: seq<Move>)
    requires n >= 1
    ensures moves == Solution(n, source, target, auxiliary)
  {
    var list := new MoveList();
    list.Solve(n, source, target, auxiliary);
    moves := list.moves;
  }

  function Pow2(n: nat): nat {
    if n == 0 then 1 else 2 * Pow2(n - 1)
  }

  lemma {:induction false} SolutionLength(n: nat, src: Peg, tgt: Peg, aux: Peg)
    requires n >= 1
    ensures |Solution(n, src, tgt, aux)| == Pow2(n) - 1
  {
    if n > 1 {
      SolutionLength(n - 1, src, aux, tgt);
      SolutionLength(n - 1, aux, tgt, src);
    }
  }

  lemma {:induction false} PlayAppend(board: Board, a: seq<Move>, b: seq<Move>)
    ensures Play(board, a + b) == match Play(board, a) case None => None case Some(mid) => Play(mid, b)
    decreases a
  {
    if a == [] {
      assert a + b == b;
    } else {
      assert (a + b)[1..] == a[1..] + b;
      if Legal(board, a[0]) {
        PlayAppend(Shift(board, a[0]), a[1..], b);
      }
    }
  }

  lemma PlayOne(board: Board, m: Move)
    requires Legal(board, m)
    ensures Play(board, [m]) == Some(Shift(board, m))
  {
    assert [m][1..] == [];
  }

  /** Room to work with n disks: what lies on the peg is larger than all of them. */
  predicate Roomy(peg: seq<nat>, n: nat) {
    peg == [] || peg[|peg| - 1] > n
  }

  lemma PlayThree(board: Board, a: seq<Move>, mid: Board, m: Move, b: seq<Move>)
    requires Play(board, a) == Some(mid) && Legal(mid, m)
    ensures Play(board, a + [m] + b) == Play(Shift(mid, m), b)
  {
    PlayAppend(board, a, [m]);
    PlayOne(mid, m);
    PlayAppend(board, a + [m], b);
  }

  /** Between the two recursive calls the largest disk is free to move. */
  lemma LargestMoves(board: Board, n: nat, src: Peg, tgt: Peg, aux: Peg, base: seq<nat>, small: seq<nat>)
    returns (mid: Board, moved: Board)
    requires src != tgt && tgt != aux && src != aux && src in board && tgt in board && aux in board
    requires Roomy(board[tgt], n)
    ensures mid == board[src := base + [n]][aux := board[aux] + small]
    ensures Legal(mid, Move(n, src, tgt)) && Shift(mid, Move(n, src, tgt)) == moved
    ensures src in moved && tgt in moved && aux in moved
    ensures moved[src] == base && moved[tgt] == board[tgt] + [n] && moved[aux] == board[aux] + small
    ensures moved[aux := board[aux]][tgt := board[tgt] + [n] + small] == board[src := base][tgt := board[tgt] + [n] + small]
  {
    mid := board[src := base + [n]][aux := board[aux] + small];
    moved := mid[src := base][tgt := board[tgt] + [n]];
    assert (base + [n])[..|base|] == base;
  }

  /** Solving moves the n smallest disks from one peg to another, whatever larger disks lie below, and no move
      on the way is illegal. */
  lemma {:induction false} SolveMovesTower(board: Board, n: nat, src: Peg, tgt: Peg, aux: Peg, base: seq<nat>)
    requires n >= 1 && src != tgt && tgt != aux && src != aux
    requires src in board && tgt in board && aux in board && board[src] == base + Tower(n)
    requires Roomy(base, n) && Roomy(board[tgt], n) && Roomy(board[aux], n)
    ensures Play(board, Solution(n, src, tgt, aux)) == Some(board[src := base][tgt := board[tgt] + Tower(n)])
    decreases n
  {
    if n == 1 {
      assert Tower(1) == [1];
      assert (base + [1])[..|base|] == base;
      PlayOne(board, Move(1, src, tgt));
    } else {
      hide Play;
      var small := Tower(n - 1);
      var mid, moved := LargestMoves(board, n, src, tgt, aux, base, small);
      assert base + Tower(n) == (base + [n]) + small && board[tgt] + Tower(n) == board[tgt] + [n] + small;
      SolveMovesTower(board, n - 1, src, aux, tgt, base + [n]);
      SolveMovesTower(moved, n - 1, aux, tgt, src, board[aux]);
      PlayThree(board, Solution(n - 1, src, aux, tgt), mid, Move(n, src, tgt), Solution(n - 1, aux, tgt, src));
    }
  }

  /** All n disks on A, moved as generated, end up on C, with no illegal move. */
  lemma AllMovesLegal(n: nat)
    requires n >= 1
    ensures Play(map[A := Tower(n), B := [], C := []], Solution(n, A, C, B)) == Some(map[A := [], B := [], C := Tower(n)])
  {
    var board: Board := map[A := Tower(n), B := [], C := []];
    hide Play, Solution;
    assert board[A] == [] + Tower(n);
    SolveMovesTower(board, n, A, C, B, []);
    assert board[A := []][C := [] + Tower(n)] == map[A := [], B := [], C := Tower(n)];
  }

  // ---------- No solution is shorter ----------

  /** Three pegs, smaller disks above larger ones, no disk in two places. */
  ghost predicate WellStacked(board: Board) {
    && A in board && B in board && C in board
    && (forall p <- board, i, j | 0 <= i < j < |board[p]| :: board[p][i] > board[p][j])
    && (forall p <- board, q <- board, d: nat | p != q :: !(d in board[p] && d in board[q]))
  }

  /** The n smallest disks are on a peg, or all on the board. */
  ghost predicate AllOn(board: Board, n: nat, p: Peg) {
    p in board && forall d | 1 <= d <= n :: d in board[p]
  }

  ghost predicate OnBoard(board: Board, n: nat) {
    A in board && B in board && C in board && forall d | 1 <= d <= n :: d in board[A] || d in board[B] || d in board[C]
  }

  /** A move takes one disk from one peg to another. */
  lemma MoveEffect(board: Board, m: Move, p: Peg, d: nat)
    requires WellStacked(board) && Legal(board, m)
    ensures d in Shift(board, m)[p] <==> if d == m.disk then p == m.tgt else d in board[p]
  {
    if p == m.src {
      TopLeaves(board[m.src], d);
    } else if p == m.tgt {
      assert d in board[m.tgt] + [m.disk] <==> d in board[m.tgt] || d == m.disk;
    } else {
      assert m.disk in board[m.src];
    }
  }

  lemma TopLeaves(peg: seq<nat>, d: nat)
    requires peg != [] && forall i, j | 0 <= i < j < |peg| :: peg[i] > peg[j]
    ensures d in peg[..|peg| - 1] <==> d in peg && d != peg[|peg| - 1]
  {
    assert peg == peg[..|peg| - 1] + [peg[|peg| - 1]];
  }

  lemma MoveKeepsStacked(board: Board, m: Move)
    requires WellStacked(board) && Legal(board, m)
    ensures WellStacked(Shift(board, m))
  {
    var after := Shift(board, m);
    forall p, q, d: nat | p in after && q in after && p != q ensures !(d in after[p] && d in after[q]) {
      MoveEffect(board, m, p, d);
      MoveEffect(board, m, q, d);
    }
  }

  /** When a disk moves, all smaller ones are on the third peg. */
  lemma SmallerAside(board: Board, m: Move) returns (aside: Peg)
    requires m.disk >= 1 && WellStacked(board) && OnBoard(board, m.disk) && Legal(board, m)
    ensures aside != m.src && aside != m.tgt && AllOn(board, m.disk - 1, aside) && AllOn(Shift(board, m), m.disk - 1, aside)
  {
    aside := if A != m.src && A != m.tgt then A else if B != m.src && B != m.tgt then B else C;
    forall d | 1 <= d <= m.disk - 1 ensures d in board[aside] && d in Shift(board, m)[aside] {
      assert d !in board[m.src];
      assert d !in board[m.tgt];
      MoveEffect(board, m, aside, d);
    }
  }

  /** The board after the first i moves. */
  ghost function BoardAt(board: Board, moves: seq<Move>, i: nat): Board
    requires i <= |moves| && Play(board, moves[..i]).Some?
  {
    Play(board, moves[..i]).value
  }

  /** Every prefix of a play is one, and the rest goes on from there. */
  lemma PlaySplits(board: Board, moves: seq<Move>, i: nat)
    requires i <= |moves| && Play(board, moves).Some?
    ensures Play(board, moves[..i]).Some? && Play(BoardAt(board, moves, i), moves[i..]) == Play(board, moves)
  {
    PlayAppend(board, moves[..i], moves[i..]);
    assert moves == moves[..i] + moves[i..];
  }

  lemma PlayNext(board: Board, moves: seq<Move>, i: nat)
    requires i < |moves| && Play(board, moves).Some?
    ensures Play(board, moves[..i]).Some? && Play(board, moves[..i + 1]).Some?
    ensures Legal(BoardAt(board, moves, i), moves[i])
    ensures BoardAt(board, moves, i + 1) == Shift(BoardAt(board, moves, i), moves[i])
  {
    PlaySplits(board, moves, i);
    PlayAppend(board, moves[..i], [moves[i]]);
    PlayOne(BoardAt(board, moves, i), moves[i]);
    assert moves[..i + 1] == moves[..i] + [moves[i]];
  }

  lemma {:induction false} StackedAt(board: Board, moves: seq<Move>, n: nat, i: nat)
    requires i <= |moves| && Play(board, moves).Some? && WellStacked(board) && OnBoard(board, n)
    ensures Play(board, moves[..i]).Some? && WellStacked(BoardAt(board, moves, i)) && OnBoard(BoardAt(board, moves, i), n)
    decreases i
  {
    if i == 0 {
      assert moves[..0] == [];
    } else {
      StackedAt(board, moves, n, i - 1);
      PlayNext(board, moves, i - 1);
      var b, m := BoardAt(board, moves, i - 1), moves[i - 1];
      MoveKeepsStacked(b, m);
      forall d | 1 <= d <= n
        ensures var after := Shift(b, m); d in after[A] || d in after[B] || d in after[C]
      {
        MoveEffect(b, m, A, d);
        MoveEffect(b, m, B, d);
        MoveEffect(b, m, C, d);
      }
    }
  }

  /** A disk that is to leave its peg has a first move, and is still there before it. */
  lemma FirstMove(board: Board, moves: seq<Move>, n: nat, src: Peg) returns (i: nat)
    requires n >= 1 && WellStacked(board) && OnBoard(board, n) && n in board[src]
    requires Play(board, moves).Some? && src in Play(board, moves).value && n !in Play(board, moves).value[src]
    ensures i < |moves| && moves[i].disk == n && Play(board, moves[..i]).Some? && moves[i].src == src
  {
    i := 0;
    assert moves[..0] == [];
    while i < |moves| && moves[i].disk != n
      invariant i <= |moves| && Play(board, moves[..i]).Some? && src in BoardAt(board, moves, i)
      invariant n in BoardAt(board, moves, i)[src]
    {
      StackedAt(board, moves, n, i);
      PlayNext(board, moves, i);
      MoveEffect(BoardAt(board, moves, i), moves[i], src, n);
      i := i + 1;
    }
    assert i < |moves| by { assert moves[..|moves|] == moves; }
    StackedAt(board, moves, n, i);
    PlayNext(board, moves, i);
    hide Play;
  }

  /** A disk that is on a peg after a move came there by it or was there before. */
  lemma StepBack(board: Board, moves: seq<Move>, n: nat, tgt: Peg, j: nat)
    requires j < |moves| && WellStacked(board) && OnBoard(board, n) && Play(board, moves).Some?
    requires Play(board, moves[..j + 1]).Some? && tgt in BoardAt(board, moves, j + 1) && n in BoardAt(board, moves, j + 1)[tgt]
    ensures if moves[j].disk == n then moves[j].tgt == tgt
            else Play(board, moves[..j]).Some? && tgt in BoardAt(board, moves, j) && n in BoardAt(board, moves, j)[tgt]
  {
    StackedAt(board, moves, n, j);
    PlayNext(board, moves, j);
    MoveEffect(BoardAt(board, moves, j), moves[j], tgt, n);
    hide Play, Shift;
  }

  /** A disk that has reached a peg within the first i moves had a last move in them, and came there by it. */
  lemma {:induction false} LastMove(board: Board, moves: seq<Move>, n: nat, tgt: Peg, i: nat) returns (j: nat)
    requires i <= |moves| && WellStacked(board) && OnBoard(board, n) && n !in board[tgt] && Play(board, moves).Some?
    requires Play(board, moves[..i]).Some? && tgt in BoardAt(board, moves, i) && n in BoardAt(board, moves, i)[tgt]
    ensures j < i && moves[j].disk == n && moves[j].tgt == tgt && forall k | j < k < i :: moves[k].disk != n
    decreases i
  {
    hide WellStacked, OnBoard, Legal, Shift;
    assert i > 0 by { assert moves[..0] == []; }
    StepBack(board, moves, n, tgt, i - 1);
    hide *;
    if moves[i - 1].disk == n {
      j := i - 1;
    } else {
      j := LastMove(board, moves, n, tgt, i - 1);
    }
  }

  ghost predicate Carries(board: Board, moves: seq<Move>, n: nat, src: Peg, tgt: Peg) {
    && WellStacked(board) && OnBoard(board, n) && AllOn(board, n, src) && src != tgt
    && Play(board, moves).Some? && AllOn(Play(board, moves).value, n, tgt)
  }

  /** The n - 1 smaller disks are carried aside before the largest first moves. */
  lemma BeforeFirst(board: Board, moves: seq<Move>, n: nat, src: Peg, tgt: Peg) returns (i: nat, aside: Peg)
    requires n >= 1 && Carries(board, moves, n, src, tgt)
    ensures i < |moves| && moves[i].disk == n && Carries(board, moves[..i], n - 1, src, aside)
  {
    StackedAt(board, moves, n, |moves|);
    assert moves[..|moves|] == moves;
    i := FirstMove(board, moves, n, src);
    StackedAt(board, moves, n, i);
    PlayNext(board, moves, i);
    hide Play;
    aside := SmallerAside(BoardAt(board, moves, i), moves[i]);
  }

  /** And carried back after it last does. */
  lemma AfterLast(board: Board, moves: seq<Move>, n: nat, src: Peg, tgt: Peg) returns (j: nat, back: Peg)
    requires n >= 1 && Carries(board, moves, n, src, tgt)
    ensures j < |moves| && (forall k | j < k < |moves| :: moves[k].disk != n) && Play(board, moves[..j + 1]).Some?
    ensures Carries(BoardAt(board, moves, j + 1), moves[j + 1..], n - 1, back, tgt)
  {
    hide Shift, Legal;
    assert moves[..|moves|] == moves;
    j := LastMove(board, moves, n, tgt, |moves|);
    StackedAt(board, moves, n, j);
    PlayNext(board, moves, j);
    StackedAt(board, moves, n, j + 1);
    PlaySplits(board, moves, j + 1);
    hide Play, Shift;
    back := SmallerAside(BoardAt(board, moves, j), moves[j]);
  }

  /** However it is done, and whatever larger disks do meanwhile, taking the n smallest disks from one peg to another
      takes 2^n - 1 moves: the smaller ones must go aside before the largest first moves and come back after it last
      does. */
  lemma {:induction false} TakesAsMany(board: Board, moves: seq<Move>, n: nat, src: Peg, tgt: Peg)
    requires Carries(board, moves, n, src, tgt)
    ensures |moves| >= Pow2(n) - 1
    decreases n
  {
    if n > 0 {
      var i, aside := BeforeFirst(board, moves, n, src, tgt);
      var j, back := AfterLast(board, moves, n, src, tgt);
      hide *;
      TakesAsMany(board, moves[..i], n - 1, src, aside);
      TakesAsMany(BoardAt(board, moves, j + 1), moves[j + 1..], n - 1, back, tgt);
    }
  }

  lemma {:induction false} TowerStacked(n: nat)
    ensures forall d :: d in Tower(n) <==> 1 <= d <= n
    ensures forall i, j | 0 <= i < j < |Tower(n)| :: Tower(n)[i] > Tower(n)[j]
  {
    if n > 0 {
      TowerStacked(n - 1);
      var rest := Tower(n - 1);
      forall i, j | 0 <= i < j < |Tower(n)| ensures Tower(n)[i] > Tower(n)[j] {
        assert Tower(n)[j] == rest[j - 1] && rest[j - 1] in rest;
      }
    }
  }

  /** No sequence of legal moves that solves the puzzle is shorter than the generated one. */
  lemma NoShorterSolution(n: nat, moves: seq<Move>)
    requires n >= 1
    requires Play(map[A := Tower(n), B := [], C := []], moves) == Some(map[A := [], B := [], C := Tower(n)])
    ensures |moves| >= |Solution(n, A, C, B)|
  {
    TowerStacked(n);
    TakesAsMany(map[A := Tower(n), B := [], C := []], moves, n, A, C);
    SolutionLength(n, A, C, B);
  }

  // ---------- The formula ----------

  function PegName(p: Peg): string {
    match p case A => "A" case B => "B" case C => "C"
  }

  function MoveId(i: nat): string {
    "move-" + Itoa(i)
  }

  function FormulaStep(id: string, title: string, description: string, needs: seq<string>): Step {
    Step(id, title, description, needs, [], "", "", None)
  }

  function MoveStep(m: Move, i: nat, total: nat, prev: string): Step {
    FormulaStep(
      MoveId(i), "Move disk " + Itoa(m.disk) + ": " + PegName(m.src) + " \U{2192} " + PegName(m.tgt),
      "Move disk " + Itoa(m.disk) + " from peg " + PegName(m.src) + " to peg " + PegName(m.tgt)
      + ". (Move " + Itoa(i) + "/" + Itoa(total) + ")", [prev])
  }

  /** Each step needs exactly the one before it. */
  ghost predicate Chain(steps: seq<Step>) {
    DistinctRefs(steps) && forall i {:trigger steps[i].needs} | 0 <= i < |steps| ::
      steps[i].needs == if i == 0 then [] else [steps[i - 1].ref]
  }

  /** The steps as printed: setup, one step per move in the generated order, verify. */
  method GenerateFormula(disks: nat) returns (steps: seq<Step>)
    requires disks >= 1
    ensures var moves := Solution(disks, A, C, B);
      && |steps| == |moves| + 2 && Chain(steps)
      && steps[0].ref == "setup" && steps[|steps| - 1].ref == "verify"
      && forall i | 0 <= i < |moves| :: steps[i + 1] == MoveStep(moves[i], i + 1, |moves|, steps[i].ref)
  {
    hide Solution, Itoa, PegName;
    var moves := HanoiMoves(disks, A, C, B);
    var total := |moves|;
    var prev := "setup";
    steps := [FormulaStep("setup", "Verify initial state",
                          "All " + Itoa(disks) + " disks stacked on peg A. Largest on bottom.", [])];
    for i := 0 to total
      invariant |steps| == i + 1 && steps[0].ref == "setup" && steps[0].needs == [] && prev == steps[i].ref
      invariant forall k | 1 <= k <= i :: steps[k].ref == MoveId(k)
      invariant forall k | 0 <= k < i :: steps[k + 1] == MoveStep(moves[k], k + 1, total, steps[k].ref)
    {
      var step := MoveStep(moves[i], i + 1, total, prev);
      steps := steps + [step];
      prev := step.ref;
    }
    ghost var printed := steps;
    steps := steps + [FormulaStep("verify", "Verify final state",
                                  "All " + Itoa(disks) + " disks now on peg C. Tower intact, all moves were legal.",
                                  [prev])];
    MoveRefsDistinct(printed);
    assert DistinctRefs(steps) by { assert "verify"[0] == 'v' && "setup"[0] == 's' && "move-"[0] == 'm'; }
  }

  lemma MoveRefsDistinct(steps: seq<Step>)
    requires steps != [] && steps[0].ref == "setup"
    requires forall k | 1 <= k < |steps| :: steps[k].ref == MoveId(k)
    ensures DistinctRefs(steps)
  {
    forall i, j | 0 <= i < j < |steps| ensures steps[i].ref != steps[j].ref {
      assert MoveId(j)[0] == 'm' && "setup"[0] == 's';
      if i > 0 && MoveId(i) == MoveId(j) {
        assert Itoa(i) == MoveId(i)[5..] == MoveId(j)[5..] == Itoa(j);
        DigitsItoa(i);
        DigitsItoa(j);
      }
    }
  }

  function RefList(steps: seq<Step>): (r: seq<string>)
    ensures |r| == |steps| && forall i | 0 <= i < |steps| :: r[i] == steps[i].ref
  {
    seq(|steps|, i requires 0 <= i < |steps| => steps[i].ref)
  }

  /** The graph of a chain: each node needs exactly the one before it. */
  ghost predicate ChainGraph(deps: map<string, seq<string>>, refs: seq<string>) {
    && NoDup(refs) && deps.Keys == Elements(refs)
    && forall i {:trigger deps[refs[i]]} | 0 <= i < |refs| :: deps[refs[i]] == if i == 0 then [] else [refs[i - 1]]
  }

  lemma RefListElements(steps: seq<Step>)
    ensures Elements(RefList(steps)) == Refs(steps)
  {
    var refs := RefList(steps);
    forall r | r in Refs(steps) ensures r in refs {
      var i :| 0 <= i < |steps| && steps[i].ref == r;
      assert refs[i] == r;
    }
    forall r | r in refs ensures r in Refs(steps) {
      var i :| 0 <= i < |refs| && refs[i] == r;
      assert steps[i] in steps;
    }
  }

  /** Any map that holds the needs of a chain is a chain graph over its refs. */
  lemma ChainNeeds(steps: seq<Step>, deps: map<string, seq<string>>, refs: seq<string>)
    requires Chain(steps) && |refs| == |steps| && deps.Keys == Elements(refs)
    requires forall i | 0 <= i < |steps| :: refs[i] == steps[i].ref && refs[i] in deps && deps[refs[i]] == steps[i].needs
    ensures ChainGraph(deps, refs)
  {
  }

  lemma ChainHasChainGraph(steps: seq<Step>)
    requires Chain(steps)
    ensures ChainGraph(DepsOf(steps), RefList(steps))
  {
    DepsKeys(steps);
    RefListElements(steps);
    forall i | 0 <= i < |steps| ensures steps[i].ref in DepsOf(steps) && DepsOf(steps)[steps[i].ref] == steps[i].needs {
      DepsAt(steps, i);
    }
    ChainNeeds(steps, DepsOf(steps), RefList(steps));
  }

  lemma NextInChain(deps: map<string, seq<string>>, refs: seq<string>, k: nat, ref: string)
    requires ChainGraph(deps, refs) && k <= |refs|
    requires Ready(deps, {} + Elements(refs[..k]), ref)
    ensures k < |refs| && ref == refs[k]
  {
    assert ref in Elements(refs);
    var j :| 0 <= j < |refs| && refs[j] == ref;
    assert forall x | 0 <= x < k :: refs[..k][x] == refs[x] && refs[x] in Elements(refs[..k]);
    if j > 0 {
      assert refs[j - 1] in deps[refs[j]];
      var i :| 0 <= i < k && refs[..k][i] == refs[j - 1];
      assert refs[i] == refs[j - 1];
    }
  }

  lemma RunPrefix(deps: map<string, seq<string>>, order: seq<string>, k: nat)
    requires Run(deps, {}, order) && k <= |order|
    ensures Run(deps, {}, order[..k])
  {
    forall i | 0 <= i < k ensures Ready(deps, {} + Elements(order[..k][..i]), order[..k][i]) {
      assert order[..k][..i] == order[..i];
    }
  }

  lemma {:induction false} ChainGraphOrder(deps: map<string, seq<string>>, refs: seq<string>, order: seq<string>)
    requires ChainGraph(deps, refs) && Run(deps, {}, order)
    ensures order <= refs
    decreases order
  {
    if order != [] {
      var k := |order| - 1;
      RunPrefix(deps, order, k);
      ChainGraphOrder(deps, refs, order[..k]);
      assert order[..k] == refs[..k];
      NextInChain(deps, refs, k, order[k]);
    }
  }

  /** Only one order respects the needs of a chain: whichever ready steps are closed, the i-th close is the
      i-th printed step -- setup, the moves as generated, verify. */
  lemma OnlyOneOrder(steps: seq<Step>, order: seq<string>)
    requires Chain(steps) && Run(DepsOf(steps), {}, order)
    ensures order <= RefList(steps)
  {
    ChainHasChainGraph(steps);
    ChainGraphOrder(DepsOf(steps), RefList(steps), order);
  }

  lemma ChainGraphRuns(deps: map<string, seq<string>>, refs: seq<string>)
    requires ChainGraph(deps, refs)
    ensures Run(deps, {}, refs) && ClosedGraph(deps)
  {
    forall i | 0 <= i < |refs| ensures Ready(deps, {} + Elements(refs[..i]), refs[i]) {
      assert refs[i] in Elements(refs) && deps[refs[i]] == if i == 0 then [] else [refs[i - 1]];
      if i > 0 { assert refs[..i][i - 1] == refs[i - 1]; }
    }
    forall a, b | Edge(deps, a, b) ensures b in deps {
      var i :| 0 <= i < |refs| && refs[i] == a;
      assert deps[refs[i]] == if i == 0 then [] else [refs[i - 1]];
      assert i > 0 && refs[i - 1] in Elements(refs);
    }
  }

  lemma ChainKnowsNeeds(steps: seq<Step>)
    requires Chain(steps)
    ensures KnownNeeds(steps)
  {
    forall s, n | s in steps && n in s.needs ensures n in Refs(steps) {
      var i :| 0 <= i < |steps| && steps[i] == s;
      assert steps[i].needs == if i == 0 then [] else [steps[i - 1].ref];
      assert steps[i - 1] in steps;
    }
  }

  /** The printed order does run, so every formula is well-formed and can be completed. */
  lemma ChainCompletes(steps: seq<Step>)
    requires Chain(steps) && steps != []
    ensures Run(DepsOf(steps), {}, RefList(steps)) && WellFormed(steps)
  {
    ChainHasChainGraph(steps);
    ChainGraphRuns(DepsOf(steps), RefList(steps));
    ChainKnowsNeeds(steps);
    CompletableIffAcyclic(DepsOf(steps));
  }
}
