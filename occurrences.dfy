/**
 * A group is the candidate sets of one unit's nine cells, by position; the
 * techniques count in how many of its cells each value is still possible.
 */
module Occurrences {

  type Group = seq<set<int>>

  /** Every candidate can index the solver's occurrence table of size 10. */
  predicate InRange(p: Group) {
    forall i, v :: 0 <= i < |p| && v in p[i] ==> 0 <= v < 10
  }

  /** The positions whose candidates contain v, in ascending order. */
  function Cells(p: Group, v: int): (s: seq<int>)
    ensures forall j :: 0 <= j < |s| ==> 0 <= s[j] < |p| && v in p[s[j]]
    ensures forall i :: 0 <= i < |p| && v in p[i] ==> i in s
    ensures forall j, k :: 0 <= j < k < |s| ==> s[j] < s[k]
  {
    if |p| == 0 then []
    else Cells(p[..|p| - 1], v) + (if v in p[|p| - 1] then [|p| - 1] else [])
  }

  /** In how many cells of the group v is a candidate. */
  function Count(p: Group, v: int): nat {
    |Cells(p, v)|
  }

  /** The occurrence table: entry v is the number of cells where v is possible. */
  method CountOccurrences(p: Group) returns (occ: seq<int>)
    requires InRange(p)
    ensures |occ| == 10
    ensures forall v :: 0 <= v < 10 ==> occ[v] == Count(p, v)
  {
    occ := seq(10, v => 0);
    for k := 0 to |p|
      invariant |occ| == 10
      invariant forall v :: 0 <= v < 10 ==> occ[v] == Count(p[..k], v)
    {
      CountOfLonger(p, k);
      occ := AddCell(occ, p[k]);
    }
    assert p[..|p|] == p;
  }

  /** One cell's contribution: every candidate of the cell is counted once more. */
  method AddCell(occ: seq<int>, cell: set<int>) returns (occ': seq<int>)
    requires |occ| == 10
    requires forall v :: v in cell ==> 0 <= v < 10
    ensures |occ'| == 10
    ensures forall v :: 0 <= v < 10 ==> occ'[v] == occ[v] + (if v in cell then 1 else 0)
  {
    occ' := occ;
    var rest := cell;
    while rest != {}
      invariant rest <= cell
      invariant |occ'| == 10
      invariant forall v :: 0 <= v < 10 ==> occ'[v] == occ[v] + (if v in cell - rest then 1 else 0)
      decreases rest
    {
      NonEmptyHasMember(rest);
      var num :| num in rest;
      occ' := occ'[num := occ'[num] + 1];
      rest := rest - {num};
    }
  }

  lemma CountOfLonger(p: Group, k: int)
    requires 0 <= k < |p|
    ensures forall v :: Count(p[..k + 1], v) == Count(p[..k], v) + (if v in p[k] then 1 else 0)
  {
    assert p[..k + 1][..k] == p[..k];
  }

  /** Lets a loop pick an element of a non-empty set. */
  lemma NonEmptyHasMember(s: set<int>)
    requires s != {}
    ensures exists x :: x in s
  {
    if forall x :: x !in s {
      assert false;
    }
  }
}
