/**
 * Hidden singles: a value possible in only one cell of a group collapses that
 * cell's candidates to the value. Values are taken in ascending order against
 * the group as already updated, with the occurrence counts of the group as it
 * came in; so a cell holding two hidden singles keeps the smaller one.
 */
module SinglesTechnique {
  import opened Occurrences

  /** v is a candidate in exactly one cell of the group. */
  predicate HiddenSingle(p: Group, v: int) {
    1 <= v <= 9 && Count(p, v) == 1
  }

  /** The least hidden single below hi among cell i's candidates, or 0 when there is none. */
  function LeastHiddenSingle(p: Group, i: int, hi: int): (v: int)
    requires 0 <= i < |p|
    ensures v == 0 || (1 <= v < hi && v in p[i] && HiddenSingle(p, v))
    ensures forall u :: 1 <= u < hi && u in p[i] && HiddenSingle(p, u) ==> v != 0 && v <= u
    decreases hi
  {
    if hi <= 1 then 0
    else
      var w := LeastHiddenSingle(p, i, hi - 1);
      if w != 0 then w
      else if hi - 1 in p[i] && HiddenSingle(p, hi - 1) then hi - 1
      else 0
  }

  /** Cell i once the values below hi have been processed. */
  function Collapsed(p: Group, i: int, hi: int): set<int>
    requires 0 <= i < |p|
  {
    var v := LeastHiddenSingle(p, i, hi);
    if v == 0 then p[i] else {v}
  }

  /** The group after `singles`. */
  function SinglesOf(p: Group): (r: Group)
    ensures |r| == |p|
    ensures forall i :: 0 <= i < |p| ==> r[i] <= p[i]
  {
    seq(|p|, i requires 0 <= i < |p| => Collapsed(p, i, 10))
  }

  /** Which cells `singles` rewrites, and to what. */
  lemma SinglesOfMeaning(p: Group, i: int)
    requires 0 <= i < |p|
    ensures (forall v :: v in p[i] ==> !HiddenSingle(p, v)) ==> SinglesOf(p)[i] == p[i]
    ensures forall v :: v in p[i] && HiddenSingle(p, v) && (forall u :: u in p[i] && HiddenSingle(p, u) ==> v <= u)
                        ==> SinglesOf(p)[i] == {v}
  {
    var w := LeastHiddenSingle(p, i, 10);
    forall v | v in p[i] && HiddenSingle(p, v) && (forall u :: u in p[i] && HiddenSingle(p, u) ==> v <= u)
      ensures SinglesOf(p)[i] == {v}
    {
      assert w != 0 && w <= v;
    }
  }

  /** Processing value v changes cell i only when v is a hidden single still in the cell. */
  lemma CollapsedStep(p: Group, i: int, v: int)
    requires 0 <= i < |p| && 1 <= v
    ensures Collapsed(p, i, v + 1)
            == if LeastHiddenSingle(p, i, v) == 0 && v in p[i] && HiddenSingle(p, v) then {v} else Collapsed(p, i, v)
  {
  }

  method Singles(p: Group) returns (r: Group)
    requires InRange(p)
    ensures r == SinglesOf(p)
  {
    var occ := CountOccurrences(p);
    r := p;
    for v := 1 to 10
      invariant |r| == |p|
      invariant forall i :: 0 <= i < |p| ==> r[i] == Collapsed(p, i, v)
    {
      if occ[v] == 1 {
        r := CollapseOnto(p, r, v);
      } else {
        forall i | 0 <= i < |p| ensures Collapsed(p, i, v + 1) == Collapsed(p, i, v) {
          CollapsedStep(p, i, v);
        }
      }
    }
  }

  /** The pass for a value v occurring once: every cell still holding v becomes {v}. */
  method CollapseOnto(p: Group, r: Group, v: int) returns (r': Group)
    requires 1 <= v <= 9 && HiddenSingle(p, v)
    requires |r| == |p|
    requires forall i :: 0 <= i < |p| ==> r[i] == Collapsed(p, i, v)
    ensures |r'| == |p|
    ensures forall i :: 0 <= i < |p| ==> r'[i] == Collapsed(p, i, v + 1)
  {
    r' := r;
    for f := 0 to |r'|
      invariant |r'| == |p|
      invariant forall i :: 0 <= i < f ==> r'[i] == Collapsed(p, i, v + 1)
      invariant forall i :: f <= i < |p| ==> r'[i] == r[i]
    {
      CollapsedStep(p, f, v);
      if v in r'[f] {
        r' := r'[f := {v}];
      }
    }
  }
}
