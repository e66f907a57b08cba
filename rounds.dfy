/**
 * solve as a function on values: prepareSolve builds the initial store, then
 * rounds run until the grid is full or 81 rounds have run. A round is
 * singlePossibility, singles on all 27 groups and, when those left the grid
 * as it was, twins and then slings on all 27 groups.
 */
module Solving {
  import opened Grids
  import opened Candidates

  /** singlePossibility, then singles on all 27 groups. */
  ghost function CheapPart(g: seq<seq<int>>, m: Store): (b: Board)
    requires IsGrid(g) && Full(m) && WithinDigits(m)
    ensures IsGrid(b.grid) && Full(b.store) && WithinDigits(b.store)
  {
    var p := PassUpTo(g, m, 81);
    Board(p.grid, AllGroups(p.store, SinglesRule, 27))
  }

  /** Twins, then slings, on all 27 groups; neither touches the grid. */
  ghost function ExpensivePart(s: Store): (u: Store)
    requires Full(s) && WithinDigits(s)
    ensures Full(u) && WithinDigits(u)
  {
    AllGroups(AllGroups(s, TwinsRule, 27), SlingsRule, 27)
  }

  /** One round of solve, from grid g and store m: the expensive part runs only when the cheap part left the grid as it was. */
  ghost function Round(g: seq<seq<int>>, m: Store): (b: Board)
    requires IsGrid(g) && Full(m) && WithinDigits(m)
    ensures IsGrid(b.grid) && Full(b.store) && WithinDigits(b.store)
  {
    var c := CheapPart(g, m);
    if c.grid == g then Board(g, ExpensivePart(c.store)) else c
  }

  /** At most n rounds, stopping as soon as the grid is full. */
  ghost function Rounds(g: seq<seq<int>>, m: Store, n: nat): (b: Board)
    requires IsGrid(g) && Full(m) && WithinDigits(m)
    ensures IsGrid(b.grid) && Full(b.store) && WithinDigits(b.store)
    decreases n, g
  {
    if n == 0 || Filled(g) then Board(g, m)
    else
      var b := Round(g, m);
      Rounds(b.grid, b.store, n - 1)
  }

  /** What solve computes from grid g: the initial store, then at most 81 rounds. */
  ghost function Solution(g: seq<seq<int>>): (b: Board)
    requires IsGrid(g)
    ensures IsGrid(b.grid) && Full(b.store) && WithinDigits(b.store)
  {
    Rounds(g, Initial(g), 81)
  }

  /** singlePossibility followed by singles keeps the invariant and every placed value, and adds no conflict. */
  lemma CheapPartKeeps(g: seq<seq<int>>, m: Store)
    requires Consistent(g, m)
    ensures Consistent(CheapPart(g, m).grid, CheapPart(g, m).store)
    ensures Extends(g, CheapPart(g, m).grid)
    ensures NoConflicts(g) ==> NoConflicts(CheapPart(g, m).grid)
  {
    var p := PassUpTo(g, m, 81);
    PassKeeps(g, m, p.grid, p.store);
    AllGroupsShrinks(p.store, SinglesRule, 27);
    ShrinkingKeepsConsistent(p.grid, CheapPart(g, m).store, p.store);
  }

  /** Twins followed by slings keeps the invariant. */
  lemma ExpensivePartKeeps(g: seq<seq<int>>, s: Store, u: Store)
    requires Consistent(g, s) && u == ExpensivePart(s)
    ensures Consistent(g, u)
  {
    var t := AllGroups(s, TwinsRule, 27);
    AllGroupsShrinks(s, TwinsRule, 27);
    AllGroupsShrinks(t, SlingsRule, 27);
    assert Shrinks(u, s);
    ShrinkingKeepsConsistent(g, u, s);
  }

  /** A round keeps the invariant, keeps every placed value and adds no conflict. */
  lemma RoundKeeps(g: seq<seq<int>>, m: Store)
    requires Consistent(g, m)
    ensures Consistent(Round(g, m).grid, Round(g, m).store)
    ensures Extends(g, Round(g, m).grid)
    ensures NoConflicts(g) ==> NoConflicts(Round(g, m).grid)
  {
    var c := CheapPart(g, m);
    CheapPartKeeps(g, m);
    if c.grid == g {
      ExpensivePartKeeps(g, c.store, ExpensivePart(c.store));
    }
  }

  /** Any number of rounds keeps the invariant, every placed value and the absence of conflicts. */
  lemma {:induction false} RoundsKeep(g: seq<seq<int>>, m: Store, n: nat)
    requires Consistent(g, m)
    ensures Consistent(Rounds(g, m, n).grid, Rounds(g, m, n).store)
    ensures Extends(g, Rounds(g, m, n).grid)
    ensures NoConflicts(g) ==> NoConflicts(Rounds(g, m, n).grid)
    decreases n
  {
    if n > 0 && !Filled(g) {
      var b := Round(g, m);
      RoundKeeps(g, m);
      RoundsKeep(b.grid, b.store, n - 1);
      ExtendsTransitive(g, b.grid, Rounds(g, m, n).grid);
    }
  }

  /**
   * solve never loses a given or an earlier placement, never introduces a
   * conflict into a conflict-free grid, and leaves candidates that agree with
   * the grid it ends on.
   */
  lemma SolutionKeeps(g: seq<seq<int>>)
    requires IsGrid(g)
    ensures Consistent(Solution(g).grid, Solution(g).store)
    ensures Extends(g, Solution(g).grid)
    ensures NoConflicts(g) ==> NoConflicts(Solution(g).grid)
  {
    InitialConsistent(g);
    RoundsKeep(g, Initial(g), 81);
  }

  /**
   * r more rounds from grid g and store m end on board b. It is stated for
   * every count equal to r, so that the rounds are unfolded only where a
   * count is named.
   */
  ghost predicate Reaches(g: seq<seq<int>>, m: Store, r: nat, b: Board)
    requires IsGrid(g) && Full(m) && WithinDigits(m)
  {
    forall k: nat | k == r :: Rounds(g, m, k) == b
  }

  /** Reaching b in r rounds is ending on b after r rounds. */
  lemma ReachesOf(g: seq<seq<int>>, m: Store, r: nat, b: Board)
    requires IsGrid(g) && Full(m) && WithinDigits(m) && Rounds(g, m, r) == b
    ensures Reaches(g, m, r, b)
  {
  }

  /** After one round from (g, m) has given (h, n), r rounds from (g, m) end where r - 1 rounds from (h, n) do. */
  lemma RoundsNext(g: seq<seq<int>>, m: Store, h: seq<seq<int>>, n: Store, r: nat, b: Board)
    requires IsGrid(g) && Full(m) && WithinDigits(m) && 0 < r && !Filled(g)
    requires h == Round(g, m).grid && n == Round(g, m).store && Reaches(g, m, r, b)
    ensures IsGrid(h) && Full(n) && WithinDigits(n)
    ensures Reaches(h, n, r - 1, b)
  {
    forall k: nat | k == r - 1
      ensures Rounds(h, n, k) == b
    {
      assert Rounds(g, m, k + 1) == b;
    }
  }

  /** Rounds stop once the grid is full or no round is left. */
  lemma RoundsDone(g: seq<seq<int>>, m: Store, r: nat, b: Board)
    requires IsGrid(g) && Full(m) && WithinDigits(m) && (r == 0 || Filled(g)) && Reaches(g, m, r, b)
    ensures b == Board(g, m)
  {
    assert Rounds(g, m, r) == b;
  }
}
