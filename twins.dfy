/**
 * Hidden pairs: two values that are each possible in exactly the same two
 * cells of a group restrict those two cells to exactly that pair. Pairs
 * (val, twinVal) are visited with val ascending, then twinVal ascending; a
 * cell written by several pairs keeps the last one.
 */
module TwinsTechnique {
  import opened Occurrences

  /** a and b are possible in exactly the same two cells. */
  predicate IsTwin(p: Group, a: int, b: int) {
    1 <= a <= 9 && 1 <= b <= 9 && a != b && Count(p, a) == 2 && Cells(p, a) == Cells(p, b)
  }

  /** Visit n of the pair loops is the pair (PairVal(n), PairTwin(n)). */
  function PairVal(n: int): int {
    n / 9 + 1
  }

  function PairTwin(n: int): int {
    n % 9 + 1
  }

  lemma PairOfVisit(a: int, b: int, n: int)
    requires 1 <= a <= 9 && 1 <= b <= 9 && n == (a - 1) * 9 + (b - 1)
    ensures 0 <= n < 81 && PairVal(n) == a && PairTwin(n) == b
  {
  }

  /** Visit n rewrites cell i. */
  predicate WritesCell(p: Group, n: int, i: int) {
    IsTwin(p, PairVal(n), PairTwin(n)) && i in Cells(p, PairVal(n))
  }

  /** Which of the 81 visits rewrite cell i; a proof helper that keeps the reasoning about LastWrite small. */
  function Writes(p: Group, i: int): (w: seq<bool>)
    ensures |w| == 81 && forall n :: 0 <= n < 81 ==> w[n] == WritesCell(p, n, i)
  {
    seq(81, n => WritesCell(p, n, i))
  }

  /** The last of the first n entries of w that holds, or -1 when none does. */
  function LastWrite(w: seq<bool>, n: int): (m: int)
    ensures m == -1 || 0 <= m < n
    ensures m >= 0 ==> m < |w| && w[m]
    ensures forall k :: m < k < n && 0 <= k < |w| ==> !w[k]
    decreases n, w
  {
    if n <= 0 then -1
    else if n - 1 < |w| && w[n - 1] then n - 1
    else LastWrite(w, n - 1)
  }

  /** Cell i after the first n visits. */
  function TwinCell(p: Group, i: int, n: int): set<int>
    requires 0 <= i < |p|
  {
    var m := LastWrite(Writes(p, i), n);
    if m < 0 then p[i] else {PairVal(m), PairTwin(m)}
  }

  /** Visit n, of the pair (a, b), rewrites cell i exactly when a and b are twins possible in cell i. */
  lemma TwinCellStep(p: Group, i: int, a: int, b: int, n: int, n': int)
    requires 0 <= i < |p| && 1 <= a <= 9 && 1 <= b <= 9 && n == (a - 1) * 9 + (b - 1) && n' == n + 1
    ensures TwinCell(p, i, n') == if IsTwin(p, a, b) && i in Cells(p, a) then {a, b} else TwinCell(p, i, n)
  {
    PairOfVisit(a, b, n);
  }

  /** The group after `twins`. */
  function TwinsOf(p: Group): (r: Group)
    ensures |r| == |p|
    ensures forall i :: 0 <= i < |p| ==> r[i] <= p[i]
  {
    seq(|p|, i requires 0 <= i < |p| => TwinCell(p, i, 81))
  }

  /** Which cells `twins` rewrites, and to what. */
  lemma TwinsOfMeaning(p: Group, i: int)
    requires 0 <= i < |p|
    ensures (forall a, b :: !(IsTwin(p, a, b) && i in Cells(p, a))) ==> TwinsOf(p)[i] == p[i]
    ensures TwinsOf(p)[i] == p[i] || exists a, b :: IsTwin(p, a, b) && i in Cells(p, a) && TwinsOf(p)[i] == {a, b}
    ensures forall a, b :: IsTwin(p, a, b) && i in Cells(p, a)
                           && (forall c, d :: IsTwin(p, c, d) && i in Cells(p, c) ==> {c, d} == {a, b})
                           ==> TwinsOf(p)[i] == {a, b}
  {
    var m := LastWrite(Writes(p, i), 81);
    if m >= 0 {
      assert IsTwin(p, PairVal(m), PairTwin(m)) && i in Cells(p, PairVal(m));
    } else {
      forall a, b | IsTwin(p, a, b) ensures i !in Cells(p, a) {
        var n := (a - 1) * 9 + (b - 1);
        PairOfVisit(a, b, n);
        assert !WritesCell(p, n, i);
      }
    }
  }

  /** `fields` maps each value possible in exactly two cells to those cells. */
  ghost predicate FieldsOfTwices(p: Group, fields: map<int, seq<int>>) {
    && (forall v :: v in fields <==> 1 <= v <= 9 && Count(p, v) == 2)
    && (forall v :: v in fields ==> fields[v] == Cells(p, v))
  }

  method Twins(p: Group) returns (r: Group)
    requires InRange(p)
    ensures r == TwinsOf(p)
  {
    var occ := CountOccurrences(p);
    var twices: set<int> := {};
    for v := 1 to 10
      invariant forall u :: u in twices <==> 1 <= u < v && Count(p, u) == 2
    {
      if occ[v] == 2 {
        twices := twices + {v};
      }
    }
    var fields := CollectFields(p, twices);
    assert FieldsOfTwices(p, fields);
    r := p;
    ghost var visits := 0;
    for a := 1 to 10
      invariant visits == (a - 1) * 9
      invariant |r| == |p|
      invariant forall i :: 0 <= i < |p| ==> r[i] == TwinCell(p, i, visits)
    {
      r, visits := VisitPairsWith(p, fields, r, a, visits);
    }
    TwinsDone(p, r, visits);
  }

  /** After all 81 visits, the group is the one `twins` returns. */
  lemma TwinsDone(p: Group, r: Group, n: int)
    requires n == 81 && |r| == |p| && forall i :: 0 <= i < |p| ==> r[i] == TwinCell(p, i, n)
    ensures r == TwinsOf(p)
  {
  }

  /** The inner pair loop: a is paired with every b in turn; n counts the visits before. */
  method VisitPairsWith(p: Group, fields: map<int, seq<int>>, r: Group, a: int, ghost n: int)
    returns (r': Group, ghost n': int)
    requires FieldsOfTwices(p, fields)
    requires 1 <= a <= 9 && n == (a - 1) * 9
    requires |r| == |p|
    requires forall i :: 0 <= i < |p| ==> r[i] == TwinCell(p, i, n)
    ensures n' == n + 9 && |r'| == |p|
    ensures forall i :: 0 <= i < |p| ==> r'[i] == TwinCell(p, i, n')
  {
    r', n' := r, n;
    for b := 1 to 10
      invariant n' == n + (b - 1)
      invariant |r'| == |p|
      invariant forall i :: 0 <= i < |p| ==> r'[i] == TwinCell(p, i, n')
    {
      r', n' := VisitPair(p, fields, r', a, b, n');
    }
  }

  /** Visit n of the pair loops, of (a, b): if a and b are twins, both their cells become {a, b}. */
  method VisitPair(p: Group, fields: map<int, seq<int>>, r: Group, a: int, b: int, ghost n: int)
    returns (r': Group, ghost n': int)
    requires FieldsOfTwices(p, fields)
    requires 1 <= a <= 9 && 1 <= b <= 9 && n == (a - 1) * 9 + (b - 1)
    requires |r| == |p|
    requires forall i :: 0 <= i < |p| ==> r[i] == TwinCell(p, i, n)
    ensures n' == n + 1 && |r'| == |p|
    ensures forall i :: 0 <= i < |p| ==> r'[i] == TwinCell(p, i, n')
  {
    n' := n + 1;
    if a in fields && b in fields && a != b && fields[a] == fields[b] {
      assert IsTwin(p, a, b);
      var cells := fields[a];
      r' := r[cells[0] := {a, b}][cells[1] := {a, b}];
      forall i | 0 <= i < |p| ensures r'[i] == TwinCell(p, i, n') {
        TwinCellStep(p, i, a, b, n, n');
        assert i in Cells(p, a) <==> i == cells[0] || i == cells[1];
      }
    } else {
      assert !IsTwin(p, a, b);
      r' := r;
      forall i | 0 <= i < |p| ensures r'[i] == TwinCell(p, i, n') {
        TwinCellStep(p, i, a, b, n, n');
      }
    }
  }

  /** For each value in `twices`, the cells where it is possible, in ascending order. */
  method CollectFields(p: Group, twices: set<int>) returns (fields: map<int, seq<int>>)
    ensures forall v :: v in fields <==> v in twices && Cells(p, v) != []
    ensures forall v :: v in fields ==> fields[v] == Cells(p, v)
  {
    fields := map[];
    for f := 0 to |p|
      invariant forall v :: v in fields <==> v in twices && Cells(p[..f], v) != []
      invariant forall v :: v in fields ==> fields[v] == Cells(p[..f], v)
    {
      CellsOfLonger(p, f);
      fields := AddField(fields, twices, p[f], f);
    }
    assert p[..|p|] == p;
  }

  /** Appends field f to the list of every value of `twices` that f can hold. */
  method AddField(fields: map<int, seq<int>>, twices: set<int>, cell: set<int>, f: int) returns (fields': map<int, seq<int>>)
    ensures forall v :: v in fields' <==> v in fields || (v in twices && v in cell)
    ensures forall v :: v in fields' ==>
              fields'[v] == (if v in fields then fields[v] else []) + (if v in twices && v in cell then [f] else [])
  {
    fields' := fields;
    var pending := twices;
    while pending != {}
      invariant pending <= twices
      invariant forall v :: v in fields' <==> v in fields || (v in twices - pending && v in cell)
      invariant forall v :: v in fields' ==>
                  fields'[v] == (if v in fields then fields[v] else []) + (if v in twices - pending && v in cell then [f] else [])
      decreases pending
    {
      NonEmptyHasMember(pending);
      var val :| val in pending;
      if val in cell {
        if val in fields' {
          fields' := fields'[val := fields'[val] + [f]];
        } else {
          fields' := fields'[val := [f]];
        }
      }
      pending := pending - {val};
    }
  }

  lemma CellsOfLonger(p: Group, k: int)
    requires 0 <= k < |p|
    ensures forall v :: Cells(p[..k + 1], v) == Cells(p[..k], v) + (if v in p[k] then [k] else [])
  {
    assert p[..k + 1][..k] == p[..k];
  }
}
