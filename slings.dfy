/**
 * Naked subsets ("slings"): if k of a group's unsolved cells can together only
 * hold k values, those values are removed from the group's other unsolved
 * cells. For k = 2, 3, ... below the number of unsolved cells, every choice of
 * k unsolved cells is enumerated together with the union of its candidates.
 */
module SlingsTechnique {
  import opened Occurrences

  /** The positions named in a list of fields. */
  function Elems(fs: seq<int>): set<int> {
    set x | x in fs
  }

  /** Every field of the list is a position of the group. */
  predicate Positions(fs: seq<int>, poss: Group) {
    forall j :: 0 <= j < |fs| ==> 0 <= fs[j] < |poss|
  }

  predicate Increasing(fs: seq<int>) {
    forall a, b :: 0 <= a < b < |fs| ==> fs[a] < fs[b]
  }

  /** The values possible in at least one of the cells T. */
  function Union(poss: Group, T: set<int>): set<int> {
    set x, v | x in T && 0 <= x < |poss| && v in poss[x] :: v
  }

  /** The positions of the cells that still have candidates, in ascending order. */
  function OpenFields(p: Group): (e: seq<int>)
    ensures Positions(e, p) && Increasing(e)
    ensures forall c :: 0 <= c < |p| ==> (c in e <==> p[c] != {})
  {
    if |p| == 0 then []
    else OpenFields(p[..|p| - 1]) + (if p[|p| - 1] != {} then [|p| - 1] else [])
  }

  /*
   * The combinations built by slingsRecursive(k, fs, ci, cp): iteration j of
   * its loop chooses fs[j] and completes the choice from the fields after it.
   */

  /** The entries added by iteration j. */
  function Extend(k: int, fs: seq<int>, ci: set<int>, cp: set<int>, poss: Group, j: int): (r: map<set<int>, set<int>>)
    requires 1 <= k && Positions(fs, poss) && 0 <= j < |fs|
    ensures forall K :: K in r ==> ci <= K && cp <= r[K]
    decreases |fs|, 0
  {
    if k == 1 then map[ci + {fs[j]} := cp + poss[fs[j]]]
    else Combinations(k - 1, fs[j + 1..], ci + {fs[j]}, cp + poss[fs[j]], poss)
  }

  /** The result after the first n iterations; later entries replace earlier ones. */
  function CombinationsUpTo(k: int, fs: seq<int>, ci: set<int>, cp: set<int>, poss: Group, n: int): (r: map<set<int>, set<int>>)
    requires 1 <= k && Positions(fs, poss) && 0 <= n <= |fs|
    ensures forall K :: K in r ==> ci <= K && cp <= r[K]
    decreases |fs|, 1, n
  {
    if n == 0 then map[]
    else CombinationsUpTo(k, fs, ci, cp, poss, n - 1) + Extend(k, fs, ci, cp, poss, n - 1)
  }

  /**
   * The loop runs for j = 0 .. |fs| - k. Every choice extends the fields ci
   * chosen so far, and its union extends their candidates cp.
   */
  function Combinations(k: int, fs: seq<int>, ci: set<int>, cp: set<int>, poss: Group): (r: map<set<int>, set<int>>)
    requires 1 <= k && Positions(fs, poss)
    ensures forall K :: K in r ==> ci <= K && cp <= r[K]
    decreases |fs|, 2
  {
    CombinationsUpTo(k, fs, ci, cp, poss, if |fs| >= k then |fs| - k + 1 else 0)
  }

  /** The recursive enumeration, proved to build `Combinations`. */
  method SlingsRecursive(k: int, fs: seq<int>, ci: set<int>, cp: set<int>, poss: Group) returns (result: map<set<int>, set<int>>)
    requires 1 <= k && Positions(fs, poss)
    ensures result == Combinations(k, fs, ci, cp, poss)
    decreases |fs|
  {
    result := map[];
    var rest := fs;
    var j := 0;
    while j <= |fs| - k
      invariant 0 <= j <= |fs| && (j > 0 ==> j <= |fs| - k + 1)
      invariant result == CombinationsUpTo(k, fs, ci, cp, poss, j)
      invariant k > 1 ==> rest == fs[j..]
    {
      var copyCI := ci + {fs[j]};
      var copyCP := cp + poss[fs[j]];
      if k == 1 {
        result := result[copyCI := copyCP];
        assert result == CombinationsUpTo(k, fs, ci, cp, poss, j + 1);
      } else {
        rest := rest[1..];
        var sub := SlingsRecursive(k - 1, rest, copyCI, copyCP, poss);
        result := result + sub;
      }
      j := j + 1;
    }
  }

  /** An entry of the first n iterations was added by one of them, with that iteration's value. */
  lemma {:induction false} AddedBy(k: int, fs: seq<int>, ci: set<int>, cp: set<int>, poss: Group, n: int, K: set<int>)
    returns (j: int)
    requires 1 <= k && Positions(fs, poss) && 0 <= n <= |fs|
    requires K in CombinationsUpTo(k, fs, ci, cp, poss, n)
    ensures 0 <= j < n && K in Extend(k, fs, ci, cp, poss, j)
    ensures CombinationsUpTo(k, fs, ci, cp, poss, n)[K] == Extend(k, fs, ci, cp, poss, j)[K]
    decreases n
  {
    if K in Extend(k, fs, ci, cp, poss, n - 1) {
      j := n - 1;
    } else {
      j := AddedBy(k, fs, ci, cp, poss, n - 1, K);
    }
  }

  /** What an iteration adds stays in the result. */
  lemma {:induction false} Kept(k: int, fs: seq<int>, ci: set<int>, cp: set<int>, poss: Group, n: int, j: int, K: set<int>)
    requires 1 <= k && Positions(fs, poss) && 0 <= j < n <= |fs|
    requires K in Extend(k, fs, ci, cp, poss, j)
    ensures K in CombinationsUpTo(k, fs, ci, cp, poss, n)
    decreases n
  {
    if j < n - 1 {
      Kept(k, fs, ci, cp, poss, n - 1, j, K);
    }
  }

  /** The facts about the fields from position j on that both lemmas below use. */
  lemma SplitAt(fs: seq<int>, ci: set<int>, j: int)
    requires Increasing(fs) && ci !! Elems(fs) && 0 <= j < |fs|
    ensures Elems(fs[j..]) == {fs[j]} + Elems(fs[j + 1..])
    ensures fs[j] !in Elems(fs[j + 1..]) && fs[j] !in ci
    ensures Increasing(fs[j + 1..]) && (ci + {fs[j]}) !! Elems(fs[j + 1..])
    ensures Elems(fs[j..]) <= Elems(fs)
  {
    var x, rest := fs[j], fs[j + 1..];
    assert fs[j..] == [x] + rest;
    assert x in Elems(fs);
    forall y | y in Elems(rest) ensures y != x && y !in ci {
      var t :| 0 <= t < |rest| && rest[t] == y;
      assert fs[j + 1 + t] == y;
    }
  }

  /**
   * Iteration j yields exactly the choices of k fields from fs[j..] that
   * include fs[j], each with its candidates added to cp.
   */
  lemma {:induction false} ExtendMeaning(k: int, fs: seq<int>, ci: set<int>, cp: set<int>, poss: Group, j: int, K: set<int>)
    requires 1 <= k && Positions(fs, poss) && Increasing(fs) && ci !! Elems(fs) && 0 <= j < |fs|
    ensures K in Extend(k, fs, ci, cp, poss, j) <==>
            ci <= K && K - ci <= Elems(fs[j..]) && fs[j] in K && |K - ci| == k
    ensures K in Extend(k, fs, ci, cp, poss, j) ==>
            Extend(k, fs, ci, cp, poss, j)[K] == cp + Union(poss, K - ci)
    decreases |fs|, 0
  {
    SplitAt(fs, ci, j);
    if k == 1 {
      ExtendLast(fs, ci, cp, poss, j, K);
    } else {
      CombinationsMeaning(k - 1, fs[j + 1..], ci + {fs[j]}, cp + poss[fs[j]], poss, K);
      ExtendFurther(k, fs, ci, cp, poss, j, K);
    }
  }

  /** With one field left to choose, iteration j adds the single choice fs[j]. */
  lemma ExtendLast(fs: seq<int>, ci: set<int>, cp: set<int>, poss: Group, j: int, K: set<int>)
    requires Positions(fs, poss) && 0 <= j < |fs| && fs[j] !in ci
    ensures K in Extend(1, fs, ci, cp, poss, j) <==>
            ci <= K && K - ci <= Elems(fs[j..]) && fs[j] in K && |K - ci| == 1
    ensures K in Extend(1, fs, ci, cp, poss, j) ==>
            Extend(1, fs, ci, cp, poss, j)[K] == cp + Union(poss, K - ci)
  {
    var x := fs[j];
    assert Extend(1, fs, ci, cp, poss, j) == map[ci + {x} := cp + poss[x]];
    assert x in Elems(fs[j..]) by {
      assert fs[j..][0] == x;
    }
    if ci <= K && x in K && |K - ci| == 1 {
      SingletonOf(K - ci, x);
      assert K == ci + {x};
    }
    if K == ci + {x} {
      assert K - ci == {x};
      UnionSingleton(poss, x);
    }
  }

  /** With more fields to choose, iteration j adds fs[j] to every choice from the fields after it. */
  lemma ExtendFurther(k: int, fs: seq<int>, ci: set<int>, cp: set<int>, poss: Group, j: int, K: set<int>)
    requires 1 < k && Positions(fs, poss) && 0 <= j < |fs|
    requires Elems(fs[j..]) == {fs[j]} + Elems(fs[j + 1..]) && fs[j] !in ci
    requires var C := Combinations(k - 1, fs[j + 1..], ci + {fs[j]}, cp + poss[fs[j]], poss);
             && (K in C <==> ci + {fs[j]} <= K && K - (ci + {fs[j]}) <= Elems(fs[j + 1..]) && |K - (ci + {fs[j]})| == k - 1)
             && (K in C ==> C[K] == cp + poss[fs[j]] + Union(poss, K - (ci + {fs[j]})))
    ensures K in Extend(k, fs, ci, cp, poss, j) <==>
            ci <= K && K - ci <= Elems(fs[j..]) && fs[j] in K && |K - ci| == k
    ensures K in Extend(k, fs, ci, cp, poss, j) ==>
            Extend(k, fs, ci, cp, poss, j)[K] == cp + Union(poss, K - ci)
  {
    var x, ci' := fs[j], ci + {fs[j]};
    assert Extend(k, fs, ci, cp, poss, j) == Combinations(k - 1, fs[j + 1..], ci', cp + poss[x], poss);
    if x in K && ci <= K {
      assert ci' <= K;
      assert K - ci' == (K - ci) - {x};
      assert x in K - ci;
      assert |K - ci'| == |K - ci| - 1;
      assert K - ci == {x} + (K - ci');
      UnionSingleton(poss, x);
      UnionOfUnion(poss, {x}, K - ci');
    }
  }

  /**
   * slingsRecursive(k, fs, ci, cp) maps exactly the ways of adding k fields
   * of fs to ci, each to cp plus the candidates of the added fields.
   */
  lemma {:induction false} CombinationsMeaning(k: int, fs: seq<int>, ci: set<int>, cp: set<int>, poss: Group, K: set<int>)
    requires 1 <= k && Positions(fs, poss) && Increasing(fs) && ci !! Elems(fs)
    ensures K in Combinations(k, fs, ci, cp, poss) <==> ci <= K && K - ci <= Elems(fs) && |K - ci| == k
    ensures K in Combinations(k, fs, ci, cp, poss) ==> Combinations(k, fs, ci, cp, poss)[K] == cp + Union(poss, K - ci)
    decreases |fs|, 1
  {
    var n := if |fs| >= k then |fs| - k + 1 else 0;
    if K in Combinations(k, fs, ci, cp, poss) {
      var j := AddedBy(k, fs, ci, cp, poss, n, K);
      ExtendMeaning(k, fs, ci, cp, poss, j, K);
      SplitAt(fs, ci, j);
    } else if ci <= K && K - ci <= Elems(fs) && |K - ci| == k {
      var j := FirstChosen(fs, K - ci);
      SplitAt(fs, ci, j);
      ExtendMeaning(k, fs, ci, cp, poss, j, K);
      var later := (K - ci) - {fs[j]};
      assert later <= Elems(fs[j + 1..]);
      SubsetCard(later, Elems(fs[j + 1..]));
      ElemsCard(fs[j + 1..]);
      Kept(k, fs, ci, cp, poss, n, j, K);
      assert false;
    }
  }

  /** The first field of fs chosen in S, when S is a non-empty choice from fs. */
  lemma FirstChosen(fs: seq<int>, S: set<int>) returns (j: int)
    requires S != {} && S <= Elems(fs)
    ensures 0 <= j < |fs| && fs[j] in S && S <= Elems(fs[j..])
  {
    NonEmptyHasMember(S);
    var y :| y in S;
    var t :| 0 <= t < |fs| && fs[t] == y;
    j := 0;
    while fs[j] !in S
      invariant 0 <= j <= t
      invariant forall i :: 0 <= i < j ==> fs[i] !in S
      decreases t - j
    {
      j := j + 1;
    }
    forall z | z in S ensures z in Elems(fs[j..]) {
      var u :| 0 <= u < |fs| && fs[u] == z;
      assert fs[j..][u - j] == z;
    }
  }

  lemma {:induction false} ElemsCard(fs: seq<int>)
    ensures |Elems(fs)| <= |fs|
  {
    if fs != [] {
      ElemsCard(fs[1..]);
      assert Elems(fs) == {fs[0]} + Elems(fs[1..]) by {
        assert fs == [fs[0]] + fs[1..];
      }
    }
  }

  lemma {:induction false} SubsetCard(A: set<int>, B: set<int>)
    requires A <= B
    ensures |A| <= |B|
    decreases B
  {
    if A != {} {
      NonEmptyHasMember(A);
      var x :| x in A;
      SubsetCard(A - {x}, B - {x});
    }
  }

  lemma SingletonOf(S: set<int>, x: int)
    requires x in S && |S| == 1
    ensures S == {x}
  {
    assert |S - {x}| == 0;
  }

  lemma UnionSingleton(poss: Group, x: int)
    requires 0 <= x < |poss|
    ensures Union(poss, {x}) == poss[x]
  {
    forall v | v in poss[x] ensures v in Union(poss, {x}) {
      assert x in {x};
    }
  }

  lemma UnionOfUnion(poss: Group, A: set<int>, B: set<int>)
    ensures Union(poss, A + B) == Union(poss, A) + Union(poss, B)
  {
  }

  /** The whole enumeration started from nothing: each size-k choice of fields, with its union. */
  lemma ChoicesOfFields(k: int, E: seq<int>, poss: Group, K: set<int>)
    requires 1 <= k && Positions(E, poss) && Increasing(E)
    ensures K in Combinations(k, E, {}, {}, poss) <==> K <= Elems(E) && |K| == k
    ensures K in Combinations(k, E, {}, {}, poss) ==> Combinations(k, E, {}, {}, poss)[K] == Union(poss, K)
  {
    CombinationsMeaning(k, E, {}, {}, poss, K);
    assert K - {} == K;
  }

  /** k open fields whose candidates together hold exactly k values. */
  ghost predicate IsSling(p: Group, E: seq<int>, k: int, T: set<int>) {
    T <= Elems(E) && |T| == k && |Union(p, T)| == k
  }

  /** The values that the entries D of the enumeration m remove from cell c: unions of size k of choices without c. */
  function Removed(m: map<set<int>, set<int>>, k: int, D: set<set<int>>, c: int): set<int> {
    set K, v | K in D && K in m && |m[K]| == k && c !in K && v in m[K] :: v
  }

  /** The open fields E lose what the entries D remove from them; other cells are kept. */
  function Prune(r: Group, E: seq<int>, k: int, m: map<set<int>, set<int>>, D: set<set<int>>): (r': Group)
    ensures |r'| == |r| && forall c :: 0 <= c < |r| ==> r'[c] <= r[c]
  {
    seq(|r|, c requires 0 <= c < |r| => if c in E then r[c] - Removed(m, k, D, c) else r[c])
  }

  /** The group after the pass for size k. */
  function SlingStep(p: Group, E: seq<int>, k: int): Group
    requires 1 <= k && Positions(E, p)
  {
    var m := Combinations(k, E, {}, {}, p);
    Prune(p, E, k, m, m.Keys)
  }

  /** The group after the passes for sizes 2 .. k - 1. */
  function SlingsUpTo(p: Group, E: seq<int>, k: int): (r: Group)
    requires Positions(E, p)
    ensures |r| == |p| && forall c :: 0 <= c < |p| ==> r[c] <= p[c]
    ensures forall c :: 0 <= c < |p| && c !in E ==> r[c] == p[c]
    decreases k
  {
    if k <= 2 then p else SlingStep(SlingsUpTo(p, E, k - 1), E, k - 1)
  }

  /** The group after `slings`: candidates only shrink, and cells without candidates stay so. */
  function SlingsOf(p: Group): (r: Group)
    ensures |r| == |p| && forall c :: 0 <= c < |p| ==> r[c] <= p[c] && (p[c] == {} ==> r[c] == {})
  {
    var E := OpenFields(p);
    SlingsUpTo(p, E, |E|)
  }

  /**
   * The pass for size k removes v from an open cell c exactly when v belongs
   * to the union of a sling of size k that does not contain c; cells that
   * were already empty are left alone.
   */
  lemma SlingStepMeaning(p: Group, E: seq<int>, k: int, c: int)
    requires 1 <= k && Positions(E, p) && Increasing(E) && 0 <= c < |p|
    ensures c !in E ==> SlingStep(p, E, k)[c] == p[c]
    ensures c in E ==> forall v :: v in SlingStep(p, E, k)[c] <==>
              v in p[c] && !(exists T :: IsSling(p, E, k, T) && c !in T && v in Union(p, T))
  {
    var m := Combinations(k, E, {}, {}, p);
    if c in E {
      forall v | v in Removed(m, k, m.Keys, c)
        ensures exists T :: IsSling(p, E, k, T) && c !in T && v in Union(p, T)
      {
        var K :| K in m && |m[K]| == k && c !in K && v in m[K];
        ChoicesOfFields(k, E, p, K);
        assert IsSling(p, E, k, K);
      }
      forall v, T | IsSling(p, E, k, T) && c !in T && v in Union(p, T)
        ensures v in Removed(m, k, m.Keys, c)
      {
        ChoicesOfFields(k, E, p, T);
      }
    }
  }

  /** Removing the entry K after the entries D. */
  lemma RemovedStep(m: map<set<int>, set<int>>, k: int, D: set<set<int>>, K: set<int>, c: int)
    requires K in m
    ensures Removed(m, k, D + {K}, c)
            == Removed(m, k, D, c) + (if |m[K]| == k && c !in K then m[K] else {})
  {
    var L, R := Removed(m, k, D + {K}, c), Removed(m, k, D, c) + (if |m[K]| == k && c !in K then m[K] else {});
    forall v | v in R ensures v in L {
      if v !in Removed(m, k, D, c) {
        assert K in D + {K};
      }
    }
  }

  /** Nothing is removed before any entry is taken. */
  lemma RemovedNothing(r: Group, E: seq<int>, k: int, m: map<set<int>, set<int>>)
    ensures Prune(r, E, k, m, {}) == r
  {
    forall c | 0 <= c < |r| ensures Prune(r, E, k, m, {})[c] == r[c] {
      assert Removed(m, k, {}, c) == {};
    }
  }

  /** A choice of fields, picked from a non-empty set of them. */
  lemma NonEmptyHasChoice(s: set<set<int>>)
    requires s != {}
    ensures exists x :: x in s
  {
    if forall x :: x !in s {
      assert false;
    }
  }

  method Slings(p: Group) returns (r: Group)
    ensures r == SlingsOf(p)
  {
    var emptyFields := CollectOpenFields(p);
    r := p;
    var i := 2;
    while i < |emptyFields|
      invariant 2 <= i && (i <= |emptyFields| || i == 2)
      invariant r == SlingsUpTo(p, emptyFields, i)
    {
      var slingFields := SlingsRecursive(i, emptyFields, {}, {}, r);
      r := RemoveSlings(r, emptyFields, i, slingFields);
      i := i + 1;
    }
  }

  /** The fields whose candidate sets are not empty, in ascending order. */
  method CollectOpenFields(p: Group) returns (emptyFields: seq<int>)
    ensures emptyFields == OpenFields(p)
  {
    emptyFields := [];
    for f := 0 to |p|
      invariant emptyFields == OpenFields(p[..f])
    {
      assert p[..f + 1][..f] == p[..f];
      if |p[f]| != 0 {
        emptyFields := emptyFields + [f];
      }
    }
    assert p[..|p|] == p;
  }

  /** The loop over the enumerated choices: each union of size k leaves the other open fields. */
  method RemoveSlings(r: Group, E: seq<int>, k: int, m: map<set<int>, set<int>>) returns (r': Group)
    requires Positions(E, r) && Increasing(E)
    ensures r' == Prune(r, E, k, m, m.Keys)
  {
    r' := r;
    var pending := m.Keys;
    RemovedNothing(r, E, k, m);
    assert m.Keys - pending == {};
    while pending != {}
      invariant pending <= m.Keys
      invariant r' == Prune(r, E, k, m, m.Keys - pending)
      decreases pending
    {
      NonEmptyHasChoice(pending);
      var indices :| indices in pending;
      var possValues := m[indices];
      ghost var done := m.Keys - pending;
      if |possValues| == k {
        r' := RemoveFromOthers(r', E, indices, possValues);
      }
      pending := pending - {indices};
      assert m.Keys - pending == done + {indices};
      forall c | 0 <= c < |r| ensures r'[c] == Prune(r, E, k, m, m.Keys - pending)[c] {
        RemovedStep(m, k, done, indices, c);
      }
    }
    assert m.Keys - pending == m.Keys;
  }

  /** The open fields outside the choice K lose the values U. */
  method RemoveFromOthers(r: Group, E: seq<int>, K: set<int>, U: set<int>) returns (r': Group)
    requires Positions(E, r) && Increasing(E)
    ensures |r'| == |r|
    ensures forall c :: 0 <= c < |r| ==> r'[c] == if c in E && c !in K then r[c] - U else r[c]
  {
    r' := r;
    for x := 0 to |E|
      invariant |r'| == |r|
      invariant forall c :: 0 <= c < |r| ==> r'[c] == if c in E[..x] && c !in K then r[c] - U else r[c]
    {
      assert E[x] !in E[..x];
      if E[x] !in K {
        r' := r'[E[x] := r'[E[x]] - U];
      }
      assert E[..x + 1] == E[..x] + [E[x]];
    }
    assert E[..|E|] == E;
  }
}
