/**
 * The solver's candidate store `fieldPossible`: one candidate set per cell,
 * keyed by Coordinate(row, col). This module gives the store as a value, the
 * per-unit views the techniques work on, the effect of assigning a value, and
 * the invariant that ties the candidates to the grid.
 */
module Candidates {
  import opened Coordinates
  import opened Units
  import opened Grids
  import opened Occurrences
  import opened SinglesTechnique
  import opened TwinsTechnique
  import opened SlingsTechnique

  type Store = map<Coordinate, set<int>>

  /** The values a cell can hold. */
  const Digits: set<int> := set v | 1 <= v <= 9

  /** The 81 coordinates of the grid. */
  function AllCells(): (s: set<Coordinate>)
    ensures forall c :: c in s <==> InGrid(c)
  {
    var s := set x, y | 0 <= x < 9 && 0 <= y < 9 :: Coordinate(x, y);
    assert forall c :: InGrid(c) ==> c == Coordinate(c.x, c.y) && c in s;
    s
  }

  /** Every candidate is one of 1..9. */
  ghost predicate WithinDigits(m: Store) {
    forall c :: c in m ==> m[c] <= Digits
  }

  /** Every cell of the grid, and nothing else, has a candidate set. */
  ghost predicate Full(m: Store) {
    m.Keys == AllCells()
  }

  /** The value of grid cell c. */
  function Cell(g: seq<seq<int>>, c: Coordinate): int
    requires IsGrid(g) && InGrid(c)
  {
    g[c.x][c.y]
  }

  predicate Filled(g: seq<seq<int>>)
    requires IsGrid(g)
  {
    forall r, c :: 0 <= r < 9 && 0 <= c < 9 ==> g[r][c] != 0
  }

  /** No two peers hold the same value. */
  ghost predicate NoConflicts(g: seq<seq<int>>)
    requires IsGrid(g)
  {
    forall a, b :: InGrid(a) && InGrid(b) && Peer(a, b) && Cell(g, a) != 0 ==> Cell(g, a) != Cell(g, b)
  }

  /** h keeps every value that g has placed. */
  predicate Extends(g: seq<seq<int>>, h: seq<seq<int>>)
    requires IsGrid(g) && IsGrid(h)
  {
    forall r, c :: 0 <= r < 9 && 0 <= c < 9 && g[r][c] != 0 ==> h[r][c] == g[r][c]
  }

  lemma ExtendsTransitive(g: seq<seq<int>>, h: seq<seq<int>>, k: seq<seq<int>>)
    requires IsGrid(g) && IsGrid(h) && IsGrid(k)
    requires Extends(g, h) && Extends(h, k)
    ensures Extends(g, k)
  {
  }

  /** Every candidate set of m lies within the one of n. */
  ghost predicate Shrinks(m: Store, n: Store) {
    (forall c :: c in m <==> c in n) && forall c :: c in m ==> m[c] <= n[c]
  }

  /**
   * The solver's invariant: every cell has candidates among 1..9, a filled
   * cell has none, and no peer of a filled cell still has its value.
   */
  ghost predicate Consistent(g: seq<seq<int>>, m: Store) {
    && IsGrid(g) && Full(m)
    && WithinDigits(m)
    && (forall c :: InGrid(c) && Cell(g, c) != 0 ==> m[c] == {})
    && (forall a, b :: InGrid(a) && InGrid(b) && Peer(a, b) && Cell(g, a) != 0 ==> Cell(g, a) !in m[b])
  }

  /** Two stores with the same candidates everywhere are the same store. */
  lemma SameStore(m: Store, n: Store)
    requires Full(m) && Full(n) && forall c :: InGrid(c) ==> m[c] == n[c]
    ensures m == n
  {
    assert m.Keys == n.Keys;
  }

  /** Taking candidates away never breaks the invariant. */
  lemma ShrinkingKeepsConsistent(g: seq<seq<int>>, m: Store, n: Store)
    requires Consistent(g, n) && Shrinks(m, n)
    ensures Consistent(g, m)
  {
  }

  /** The values of the filled peers of c. */
  function PeerValues(g: seq<seq<int>>, c: Coordinate): set<int>
    requires IsGrid(g) && InGrid(c)
  {
    set a | a in AllCells() && Peer(a, c) && Cell(g, a) != 0 :: Cell(g, a)
  }

  /** setValue at c0 with v: c0 loses all candidates, every cell sharing a unit with it loses v. */
  function Assign(m: Store, c0: Coordinate, v: int): (m': Store)
    requires Full(m) && InGrid(c0)
    ensures Full(m') && Shrinks(m', m)
    ensures m'[c0] == {}
    ensures forall c :: InGrid(c) && c != c0 ==> m'[c] == if SharesUnit(c, c0) then m[c] - {v} else m[c]
  {
    map c | c in m.Keys :: if c == c0 then {} else if InGrid(c) && SharesUnit(c, c0) then m[c] - {v} else m[c]
  }

  /** The grid with cell c set to v. */
  function Place(g: seq<seq<int>>, c: Coordinate, v: int): (h: seq<seq<int>>)
    requires IsGrid(g) && InGrid(c) && 0 <= v <= 9
    ensures IsGrid(h) && Cell(h, c) == v
    ensures forall d :: InGrid(d) && d != c ==> Cell(h, d) == Cell(g, d)
  {
    g[c.x := g[c.x][c.y := v]]
  }

  /**
   * Placing a candidate of an empty cell keeps the invariant, keeps every
   * placed value and creates no conflict.
   */
  lemma AssignKeepsConsistent(g: seq<seq<int>>, m: Store, c0: Coordinate, v: int)
    requires Consistent(g, m) && InGrid(c0) && Cell(g, c0) == 0 && v in m[c0]
    ensures 1 <= v <= 9
    ensures Consistent(Place(g, c0, v), Assign(m, c0, v))
    ensures Extends(g, Place(g, c0, v))
    ensures NoConflicts(g) ==> NoConflicts(Place(g, c0, v))
  {
    var h, n := Place(g, c0, v), Assign(m, c0, v);
    forall a, b | InGrid(a) && InGrid(b) && Peer(a, b) && Cell(h, a) != 0
      ensures Cell(h, a) !in n[b]
    {
      if a == c0 {
        assert SharesUnit(b, c0);
      }
    }
    if NoConflicts(g) {
      forall a, b | InGrid(a) && InGrid(b) && Peer(a, b) && Cell(h, a) != 0
        ensures Cell(h, a) != Cell(h, b)
      {
        if b == c0 {
          assert Cell(g, a) !in m[c0];
        } else if a == c0 {
          assert Peer(b, a);
          if Cell(g, b) != 0 {
            assert Cell(g, b) !in m[c0];
          }
        }
      }
    }
  }

  /*
   * Unit views. A unit u (0..8 rows, 9..17 columns, 18..26 blocks) is read as
   * the group of its nine candidate sets by position, and written back the
   * same way.
   */

  function ReadUnit(m: Store, u: int): (p: Group)
    requires Full(m) && 0 <= u < 27
    ensures |p| == 9
    ensures WithinDigits(m) ==> InRange(p)
  {
    seq(9, k requires 0 <= k < 9 => m[UnitCell(u, k)])
  }

  function WriteUnit(m: Store, u: int, p: Group): (m': Store)
    requires Full(m) && 0 <= u < 27 && |p| == 9
    ensures Full(m')
    ensures forall c :: InGrid(c) && !InUnit(c, u) ==> m'[c] == m[c]
    ensures forall c :: InUnit(c, u) ==> m'[c] == p[PosInUnit(c, u)]
  {
    map c | c in m.Keys :: if InUnit(c, u) then p[PosInUnit(c, u)] else m[c]
  }

  /** Writing a group and reading it back gives the same group. */
  lemma ReadAfterWrite(m: Store, u: int, p: Group)
    requires Full(m) && 0 <= u < 27 && |p| == 9
    ensures ReadUnit(WriteUnit(m, u, p), u) == p
  {
    forall k | 0 <= k < 9 ensures ReadUnit(WriteUnit(m, u, p), u)[k] == p[k] {
      UnitCellOfPos(UnitCell(u, k), u);
    }
  }

  /** Writing back what was read changes nothing. */
  lemma WriteWhatWasRead(m: Store, u: int)
    requires Full(m) && 0 <= u < 27
    ensures WriteUnit(m, u, ReadUnit(m, u)) == m
  {
    forall c | c in m ensures WriteUnit(m, u, ReadUnit(m, u))[c] == m[c] {
      if InUnit(c, u) {
        UnitCellOfPos(c, u);
      }
    }
  }

  /** A group written in place of one it shrinks shrinks the store. */
  lemma WriteShrinks(m: Store, u: int, p: Group)
    requires Full(m) && 0 <= u < 27 && |p| == 9
    requires forall k :: 0 <= k < 9 ==> p[k] <= ReadUnit(m, u)[k]
    ensures Shrinks(WriteUnit(m, u, p), m)
  {
    forall c | c in m && InUnit(c, u) ensures WriteUnit(m, u, p)[c] <= m[c] {
      UnitCellOfPos(c, u);
    }
  }

  /** The three techniques handed to attemptOnAllGroups. */
  datatype Technique = SinglesRule | TwinsRule | SlingsRule

  /** A technique's effect on one group: it only ever shrinks candidate sets. */
  function Apply(t: Technique, p: Group): (r: Group)
    ensures |r| == |p| && forall i :: 0 <= i < |p| ==> r[i] <= p[i]
  {
    match t
    case SinglesRule => SinglesOf(p)
    case TwinsRule => TwinsOf(p)
    case SlingsRule => SlingsOf(p)
  }

  /** The store after the technique has run on units 0 .. n - 1, in order. */
  function AllGroups(m: Store, t: Technique, n: int): (m': Store)
    requires Full(m) && 0 <= n <= 27
    ensures Full(m')
    ensures WithinDigits(m) ==> WithinDigits(m')
    decreases n, m
  {
    if n == 0 then m
    else
      var before := AllGroups(m, t, n - 1);
      var p := ReadUnit(before, n - 1);
      WriteShrinks(before, n - 1, Apply(t, p));
      WriteUnit(before, n - 1, Apply(t, p))
  }

  /** A pass of a technique only ever removes candidates. */
  lemma {:induction false} AllGroupsShrinks(m: Store, t: Technique, n: int)
    requires Full(m) && 0 <= n <= 27
    ensures Shrinks(AllGroups(m, t, n), m)
    decreases n
  {
    if n > 0 {
      var before := AllGroups(m, t, n - 1);
      AllGroupsShrinks(m, t, n - 1);
      WriteShrinks(before, n - 1, Apply(t, ReadUnit(before, n - 1)));
    }
  }

  /** Unit n is the one the pass handles after units 0 .. n - 1. */
  lemma AllGroupsStep(m: Store, t: Technique, n: int)
    requires Full(m) && WithinDigits(m) && 0 <= n < 27
    ensures WithinDigits(AllGroups(m, t, n))
    ensures AllGroups(m, t, n + 1) == WriteUnit(AllGroups(m, t, n), n, Apply(t, ReadUnit(AllGroups(m, t, n), n)))
  {
    AllGroupsWithinDigits(m, t, n);
  }

  /** A pass of a technique never adds a candidate outside 1..9. */
  lemma AllGroupsWithinDigits(m: Store, t: Technique, n: int)
    requires Full(m) && WithinDigits(m) && 0 <= n <= 27
    ensures WithinDigits(AllGroups(m, t, n))
  {
  }

  /** A pass of a technique over all units keeps the invariant. */
  lemma AllGroupsKeepsConsistent(g: seq<seq<int>>, m: Store, t: Technique, n: Store)
    requires Consistent(g, m) && n == AllGroups(m, t, 27)
    ensures Consistent(g, n)
  {
    AllGroupsShrinks(m, t, 27);
    ShrinkingKeepsConsistent(g, n, m);
  }

  /*
   * prepareSolve: every cell starts with 1..9, then setValue runs on each
   * filled cell in row-major order.
   */

  /** Cell c comes before position n in row-major order. */
  predicate VisitedBefore(c: Coordinate, n: int) {
    9 * c.x + c.y < n
  }

  /** The values of the filled peers of c among the first n cells. */
  function PeerValuesBefore(g: seq<seq<int>>, c: Coordinate, n: int): set<int>
    requires IsGrid(g) && InGrid(c)
  {
    set a | a in AllCells() && VisitedBefore(a, n) && Peer(a, c) && Cell(g, a) != 0 :: Cell(g, a)
  }

  /** The store once the filled cells among the first n have been set. */
  function Prepared(g: seq<seq<int>>, n: int): (m: Store)
    requires IsGrid(g)
    ensures Full(m)
  {
    map c | c in AllCells() :: if VisitedBefore(c, n) && Cell(g, c) != 0 then {} else Digits - PeerValuesBefore(g, c, n)
  }

  /** The store prepareSolve leaves: no candidates on filled cells, 1..9 minus the peers' values elsewhere. */
  function Initial(g: seq<seq<int>>): (m: Store)
    requires IsGrid(g)
    ensures Full(m) && WithinDigits(m)
    ensures forall c :: InGrid(c) ==> m[c] == if Cell(g, c) != 0 then {} else Digits - PeerValues(g, c)
  {
    var m := Prepared(g, 81);
    forall c | InGrid(c) ensures PeerValuesBefore(g, c, 81) == PeerValues(g, c) {
    }
    m
  }

  /** Before anything is set, every cell has all nine candidates. */
  lemma PreparedStart(g: seq<seq<int>>, m: Store)
    requires IsGrid(g) && Full(m) && forall c | InGrid(c) :: m[c] == Digits
    ensures m == Prepared(g, 0)
  {
    var p := Prepared(g, 0);
    forall c | InGrid(c) ensures m[c] == p[c] {
      assert PeerValuesBefore(g, c, 0) == {};
    }
    SameStore(m, p);
  }

  /** Passing cell c0 adds its value to the peer values seen by its peers. */
  lemma PeerValuesBeforeStep(g: seq<seq<int>>, n: int, c0: Coordinate, c: Coordinate)
    requires IsGrid(g) && InGrid(c0) && InGrid(c) && 9 * c0.x + c0.y == n
    ensures PeerValuesBefore(g, c, n + 1)
            == PeerValuesBefore(g, c, n) + (if Peer(c0, c) && Cell(g, c0) != 0 then {Cell(g, c0)} else {})
  {
    var L := PeerValuesBefore(g, c, n + 1);
    forall a | InGrid(a) && VisitedBefore(a, n + 1) && !VisitedBefore(a, n) ensures a == c0 {
      assert 9 * a.x + a.y == 9 * c0.x + c0.y;
    }
    if Peer(c0, c) && Cell(g, c0) != 0 {
      assert c0 in AllCells() && VisitedBefore(c0, n + 1);
      assert Cell(g, c0) in L;
    }
  }

  /** One step of prepareSolve: cell number n is set when it is filled, and skipped otherwise. */
  lemma PreparedStep(g: seq<seq<int>>, n: int, c0: Coordinate)
    requires IsGrid(g) && InGrid(c0) && 9 * c0.x + c0.y == n
    ensures Prepared(g, n + 1) == if Cell(g, c0) != 0 then Assign(Prepared(g, n), c0, Cell(g, c0)) else Prepared(g, n)
  {
    var m, m' := Prepared(g, n), Prepared(g, n + 1);
    var a := if Cell(g, c0) != 0 then Assign(m, c0, Cell(g, c0)) else m;
    forall c | InGrid(c) ensures m'[c] == a[c] {
      PeerValuesBeforeStep(g, n, c0, c);
      if c == c0 {
        assert !Peer(c0, c);
      } else if SharesUnit(c, c0) {
        assert Peer(c0, c);
        assert VisitedBefore(c, n + 1) == VisitedBefore(c, n);
      } else {
        assert !Peer(c0, c);
        assert VisitedBefore(c, n + 1) == VisitedBefore(c, n);
      }
    }
    assert m'.Keys == a.Keys;
  }

  /** After prepareSolve the invariant holds. */
  lemma InitialConsistent(g: seq<seq<int>>)
    requires IsGrid(g)
    ensures Consistent(g, Initial(g))
  {
    var m := Initial(g);
    forall a, b | InGrid(a) && InGrid(b) && Peer(a, b) && Cell(g, a) != 0
      ensures Cell(g, a) !in m[b]
    {
      if Cell(g, b) == 0 {
        assert Peer(a, b) && a in AllCells();
        assert Cell(g, a) in PeerValues(g, b);
      }
    }
  }

  /*
   * singlePossibility: the cells are visited in row-major order and a cell
   * with exactly one candidate is set to it through setValue.
   */

  /**
   * What holds once the first n cells have been visited, starting from grid g0
   * and store m0: the invariant, only shrinking, placed values kept, no new
   * conflict, only visited cells changed and each to one of its candidates,
   * and every visited cell that began with a single candidate now has none
   * and holds either nothing or that candidate.
   */
  ghost predicate PassSoFar(g0: seq<seq<int>>, m0: Store, g: seq<seq<int>>, m: Store, n: int) {
    && Consistent(g0, m0) && Consistent(g, m) && Shrinks(m, m0) && Extends(g0, g)
    && (NoConflicts(g0) ==> NoConflicts(g))
    && (forall c :: InGrid(c) && Cell(g, c) != Cell(g0, c) ==> VisitedBefore(c, n) && Cell(g, c) in m0[c])
    && (forall c :: InGrid(c) && VisitedBefore(c, n) && |m0[c]| == 1 ==> m[c] == {} && (Cell(g, c) == 0 || Cell(g, c) in m0[c]))
  }

  lemma PassStart(g: seq<seq<int>>, m: Store)
    requires Consistent(g, m)
    ensures PassSoFar(g, m, g, m, 0)
  {
  }

  /** A subset of a one-element set is empty or that set. */
  lemma SubsetOfSingleton(a: set<int>, b: set<int>)
    requires a <= b && |b| == 1
    ensures a == {} || a == b
  {
    if a != {} {
      NonEmptyHasMember(a);
      var w :| w in a;
      SingletonOf(b, w);
    }
  }

  /** The cell visited in step n - 1 is the only one that comes before n but not before n - 1. */
  lemma NextBefore(n: int, c0: Coordinate)
    requires InGrid(c0) && 9 * c0.x + c0.y == n - 1
    ensures forall c :: InGrid(c) && VisitedBefore(c, n) && !VisitedBefore(c, n - 1) ==> c == c0
  {
    forall c | InGrid(c) && VisitedBefore(c, n) && !VisitedBefore(c, n - 1) ensures c == c0 {
      assert 9 * c.x + c.y == 9 * c0.x + c0.y;
    }
  }

  /** Visiting cell number n - 1 without setting it keeps PassSoFar. */
  lemma PassSkip(g0: seq<seq<int>>, m0: Store, g: seq<seq<int>>, m: Store, n: int, c0: Coordinate)
    requires PassSoFar(g0, m0, g, m, n - 1) && InGrid(c0) && 9 * c0.x + c0.y == n - 1
    requires |m[c0]| != 1
    ensures PassSoFar(g0, m0, g, m, n)
  {
    NextBefore(n, c0);
    if |m0[c0]| == 1 {
      assert Cell(g, c0) == Cell(g0, c0) == 0 by {
        assert m0[c0] != {};
      }
      SubsetOfSingleton(m[c0], m0[c0]);
    }
  }

  /** Visiting cell number n - 1 and setting it to its only candidate keeps PassSoFar. */
  lemma PassSet(g0: seq<seq<int>>, m0: Store, g: seq<seq<int>>, m: Store, n: int, c0: Coordinate, v: int)
    requires PassSoFar(g0, m0, g, m, n - 1) && InGrid(c0) && 9 * c0.x + c0.y == n - 1
    requires m[c0] == {v}
    ensures Cell(g, c0) == 0 && 1 <= v <= 9
    ensures PassSoFar(g0, m0, Place(g, c0, v), Assign(m, c0, v), n)
  {
    NextBefore(n, c0);
    AssignKeepsConsistent(g, m, c0, v);
    var g', m' := Place(g, c0, v), Assign(m, c0, v);
    assert Extends(g0, g') by {
      assert Extends(g, g');
    }
    assert Shrinks(m', m0) by {
      assert Shrinks(m', m);
    }
    forall c | InGrid(c) && Cell(g', c) != Cell(g0, c) ensures VisitedBefore(c, n) && Cell(g', c) in m0[c] {
      if c == c0 {
        assert v in m[c0] && m[c0] <= m0[c0];
      } else {
        assert Cell(g', c) == Cell(g, c) && VisitedBefore(c, n - 1);
      }
    }
    forall c | InGrid(c) && VisitedBefore(c, n) && |m0[c]| == 1
      ensures m'[c] == {} && (Cell(g', c) == 0 || Cell(g', c) in m0[c])
    {
      if c != c0 {
        assert VisitedBefore(c, n - 1);
      }
    }
  }

  /** The only element of a one-element set. */
  ghost function Only(s: set<int>): (v: int)
    requires |s| == 1
    ensures s == {v}
  {
    NonEmptyHasMember(s);
    var v :| v in s;
    SingletonOf(s, v);
    v
  }

  /** A grid together with its candidate store. */
  datatype Board = Board(grid: seq<seq<int>>, store: Store)

  /**
   * singlePossibility after visiting the first n cells in row-major order:
   * a visited cell with exactly one candidate is set to it through setValue.
   */
  ghost function PassUpTo(g: seq<seq<int>>, m: Store, n: int): (b: Board)
    requires IsGrid(g) && Full(m) && WithinDigits(m) && 0 <= n <= 81
    ensures IsGrid(b.grid) && Full(b.store) && WithinDigits(b.store)
    decreases n, g
  {
    if n == 0 then Board(g, m)
    else
      var b := PassUpTo(g, m, n - 1);
      var c := RowMajor(n - 1);
      if |b.store[c]| == 1 then
        var v := Only(b.store[c]);
        Board(Place(b.grid, c, v), Assign(b.store, c, v))
      else b
  }

  /** Step n of the pass visits cell c, the one numbered n in row-major order; it skips c unless c has one candidate. */
  lemma PassUpToSkip(g: seq<seq<int>>, m: Store, n: int, c: Coordinate)
    requires IsGrid(g) && Full(m) && WithinDigits(m) && InGrid(c) && 9 * c.x + c.y == n
    requires |PassUpTo(g, m, n).store[c]| != 1
    ensures PassUpTo(g, m, n + 1) == PassUpTo(g, m, n)
  {
    RowMajorOf(c);
  }

  /** Step n of the pass sets c, the cell numbered n, when v is its only candidate. */
  lemma PassUpToSet(g: seq<seq<int>>, m: Store, n: int, c: Coordinate, v: int)
    requires IsGrid(g) && Full(m) && WithinDigits(m) && InGrid(c) && 9 * c.x + c.y == n
    requires PassUpTo(g, m, n).store[c] == {v}
    ensures 1 <= v <= 9
    ensures PassUpTo(g, m, n + 1) == Board(Place(PassUpTo(g, m, n).grid, c, v), Assign(PassUpTo(g, m, n).store, c, v))
  {
    RowMajorOf(c);
    assert Only(PassUpTo(g, m, n).store[c]) == v;
  }

  /** One step of the pass keeps PassSoFar. */
  lemma PassMeaningStep(g: seq<seq<int>>, m: Store, n: int)
    requires Consistent(g, m) && 0 < n <= 81
    requires PassSoFar(g, m, PassUpTo(g, m, n - 1).grid, PassUpTo(g, m, n - 1).store, n - 1)
    ensures PassSoFar(g, m, PassUpTo(g, m, n).grid, PassUpTo(g, m, n).store, n)
  {
    var b := PassUpTo(g, m, n - 1);
    var c := RowMajor(n - 1);
    if |b.store[c]| == 1 {
      var v := Only(b.store[c]);
      assert PassUpTo(g, m, n) == Board(Place(b.grid, c, v), Assign(b.store, c, v));
      PassSet(g, m, b.grid, b.store, n, c, v);
    } else {
      assert PassUpTo(g, m, n) == b;
      PassSkip(g, m, b.grid, b.store, n, c);
    }
  }

  /** What the pass guarantees after n cells, by induction on n. */
  lemma {:induction false} PassMeaning(g: seq<seq<int>>, m: Store, n: int)
    requires Consistent(g, m) && 0 <= n <= 81
    ensures PassSoFar(g, m, PassUpTo(g, m, n).grid, PassUpTo(g, m, n).store, n)
    decreases n
  {
    if n == 0 {
      PassStart(g, m);
    } else {
      PassMeaning(g, m, n - 1);
      PassMeaningStep(g, m, n);
    }
  }

  /**
   * A whole pass of singlePossibility keeps the invariant, keeps every
   * placed value and adds no conflict.
   */
  lemma PassKeeps(g: seq<seq<int>>, m: Store, h: seq<seq<int>>, n: Store)
    requires Consistent(g, m) && Board(h, n) == PassUpTo(g, m, 81)
    ensures Consistent(h, n) && Extends(g, h)
    ensures NoConflicts(g) ==> NoConflicts(h)
  {
    PassMeaning(g, m, 81);
  }
}
