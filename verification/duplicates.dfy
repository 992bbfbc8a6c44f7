/**
 * Facts about repeated entries in a sequence. Both cost functions of the
 * timetabling engine are built on "how many entries share a key" and
 * "does any entry repeat", so the counting lemmas live here once.
 */
module Duplicates {

  /** The distinct values of a sequence. */
  function Elements<T(==)>(xs: seq<T>): set<T>
  {
    set x | x in xs
  }

  /**
   * Number of entries of `xs` whose value already occurred earlier in `xs`.
   * A value that occurs N times contributes N - 1.
   */
  function Excess<T(==)>(xs: seq<T>): nat
  {
    if |xs| == 0 then 0
    else Excess(xs[..|xs| - 1]) + (if xs[|xs| - 1] in xs[..|xs| - 1] then 1 else 0)
  }

  /** Some value occurs at two different positions. */
  predicate HasDuplicates<T(==)>(xs: seq<T>)
  {
    exists i, j :: 0 <= i < j < |xs| && xs[i] == xs[j]
  }

  /** Number of entries of `xs` whose value lies in `d`. */
  function CountIn<T(==)>(xs: seq<T>, d: set<T>): nat
  {
    if |xs| == 0 then 0
    else CountIn(xs[..|xs| - 1], d) + (if xs[|xs| - 1] in d then 1 else 0)
  }

  /** Record one more occurrence of `k`, as appending to a per-key list does. */
  function Bump<T(==)>(used: map<T, nat>, k: T): map<T, nat>
  {
    used[k := if k in used then used[k] + 1 else 1]
  }

  /** The per-key occurrence counts of `xs`, built entry by entry. */
  function Tally<T(==)>(xs: seq<T>): map<T, nat>
  {
    if |xs| == 0 then map[] else Bump(Tally(xs[..|xs| - 1]), xs[|xs| - 1])
  }

  lemma TallyAppend<T>(xs: seq<T>, k: T)
    ensures Tally(xs + [k]) == Bump(Tally(xs), k)
  {
    assert (xs + [k])[..|xs|] == xs;
  }

  /** A tally holds exactly the values of `xs`, each with its number of occurrences. */
  lemma {:induction false} TallyCounts<T>(xs: seq<T>)
    ensures Tally(xs).Keys == Elements(xs)
    ensures forall k :: k in Tally(xs) ==> 1 <= Tally(xs)[k] == multiset(xs)[k]
    decreases |xs|
  {
    if |xs| > 0 {
      var p, x := xs[..|xs| - 1], xs[|xs| - 1];
      assert xs == p + [x];
      assert multiset(xs) == multiset(p) + multiset{x};
      TallyCounts(p);
      assert Elements(xs) == Elements(p) + {x};
    }
  }

  lemma TallyAt<T>(xs: seq<T>, k: T)
    requires k in Tally(xs)
    ensures 1 <= Tally(xs)[k] == multiset(xs)[k]
  {
    TallyCounts(xs);
  }

  lemma TallyKeys<T>(xs: seq<T>)
    ensures Tally(xs).Keys == Elements(xs)
  {
    TallyCounts(xs);
  }

  lemma {:induction false} ExcessIsLengthMinusDistinct<T>(xs: seq<T>)
    ensures |Elements(xs)| <= |xs|
    ensures Excess(xs) == |xs| - |Elements(xs)|
    decreases |xs|
  {
    if |xs| > 0 {
      var p, x := xs[..|xs| - 1], xs[|xs| - 1];
      assert xs == p + [x];
      ExcessIsLengthMinusDistinct(p);
      assert Elements(xs) == Elements(p) + {x};
      if x in p {
        assert Elements(xs) == Elements(p);
      } else {
        assert x !in Elements(p);
      }
    }
  }

  lemma {:induction false} ExcessPositiveIffDuplicates<T>(xs: seq<T>)
    ensures Excess(xs) > 0 <==> HasDuplicates(xs)
    decreases |xs|
  {
    if |xs| > 0 {
      var n := |xs| - 1;
      var p, x := xs[..n], xs[n];
      ExcessPositiveIffDuplicates(p);
      if HasDuplicates(p) {
        var i, j :| 0 <= i < j < |p| && p[i] == p[j];
        assert xs[i] == xs[j];
      }
      if x in p {
        var i :| 0 <= i < |p| && p[i] == x;
        assert xs[i] == xs[n];
      }
      if HasDuplicates(xs) {
        var i, j :| 0 <= i < j < |xs| && xs[i] == xs[j];
        if j < n {
          assert p[i] == p[j];
        } else {
          assert p[i] == x;
        }
      }
    }
  }

  /** A list has as many distinct entries as it has entries exactly when it holds no duplicate; the program detects duplicates by this count. */
  lemma DistinctIffFullCount<T>(xs: seq<T>)
    ensures |Elements(xs)| == |xs| <==> !HasDuplicates(xs)
  {
    ExcessIsLengthMinusDistinct(xs);
    ExcessPositiveIffDuplicates(xs);
  }

  lemma {:induction false} CountInNothing<T>(xs: seq<T>)
    ensures CountIn(xs, {}) == 0
    decreases |xs|
  {
    if |xs| > 0 {
      CountInNothing(xs[..|xs| - 1]);
    }
  }

  lemma {:induction false} CountInAdd<T>(xs: seq<T>, d: set<T>, k: T)
    requires k !in d
    ensures CountIn(xs, d + {k}) == CountIn(xs, d) + multiset(xs)[k]
    decreases |xs|
  {
    if |xs| > 0 {
      var p, x := xs[..|xs| - 1], xs[|xs| - 1];
      assert xs == p + [x];
      assert multiset(xs) == multiset(p) + multiset{x};
      CountInAdd(p, d, k);
    }
  }

  lemma {:induction false} CountInCovering<T>(xs: seq<T>, d: set<T>)
    requires Elements(xs) <= d
    ensures CountIn(xs, d) == |xs|
    decreases |xs|
  {
    if |xs| > 0 {
      var p := xs[..|xs| - 1];
      assert Elements(p) <= Elements(xs);
      CountInCovering(p, d);
    }
  }

  /** In a duplicate-free sequence, the entries lying in `d` are exactly the values of `d` it holds. */
  lemma {:induction false} CountInDistinct<T>(xs: seq<T>, d: set<T>)
    requires !HasDuplicates(xs)
    ensures CountIn(xs, d) == |d * Elements(xs)|
    decreases |xs|
  {
    if |xs| == 0 {
      assert d * Elements(xs) == {};
    } else {
      var p, x := xs[..|xs| - 1], xs[|xs| - 1];
      DistinctSplit(xs);
      CountInDistinct(p, d);
      assert CountIn(xs, d) == CountIn(p, d) + (if x in d then 1 else 0);
      ElementsSnoc(xs);
      assert x !in Elements(p);
      if x in d {
        assert d * Elements(xs) == d * Elements(p) + {x};
      } else {
        assert d * Elements(xs) == d * Elements(p);
      }
    }
  }

  /** The values of a non-empty sequence: those of its front plus its last. */
  lemma ElementsSnoc<T>(xs: seq<T>)
    requires |xs| > 0
    ensures Elements(xs) == Elements(xs[..|xs| - 1]) + {xs[|xs| - 1]}
  {
    assert xs == xs[..|xs| - 1] + [xs[|xs| - 1]];
  }

  /** Every value other than the first occurrence counts once, so one key alone shows a lower bound. */
  lemma {:induction false} ExcessAtLeastOccurrences<T>(xs: seq<T>, k: T)
    ensures Excess(xs) + 1 >= multiset(xs)[k]
    decreases |xs|
  {
    if |xs| > 0 {
      var p, x := xs[..|xs| - 1], xs[|xs| - 1];
      assert xs == p + [x];
      assert multiset(xs) == multiset(p) + multiset{x};
      ExcessAtLeastOccurrences(p, k);
      if x == k && x !in p {
        assert multiset(p)[k] == 0;
      }
    }
  }

  /** The positions of `xs` holding `k`. */
  function Positions<T(==)>(xs: seq<T>, k: T): set<int>
  {
    set i | 0 <= i < |xs| && xs[i] == k
  }

  /** The occurrence count of a value is the number of positions holding it. */
  lemma {:induction false} OccurrencesArePositions<T>(xs: seq<T>, k: T)
    ensures multiset(xs)[k] == |Positions(xs, k)|
    decreases |xs|
  {
    var pos := Positions(xs, k);
    if |xs| == 0 {
      assert pos == {};
    } else {
      var n := |xs| - 1;
      var p, x := xs[..n], xs[n];
      assert xs == p + [x];
      assert multiset(xs) == multiset(p) + multiset{x};
      OccurrencesArePositions(p, k);
      var ppos := Positions(p, k);
      if x == k {
        assert pos == ppos + {n};
      } else {
        assert pos == ppos;
      }
    }
  }

  /** Two equal entries at different positions make two occurrences. */
  lemma TwoPositions<T>(xs: seq<T>, i: nat, j: nat)
    requires i < j < |xs| && xs[i] == xs[j]
    ensures multiset(xs)[xs[i]] >= 2
  {
    OccurrencesArePositions(xs, xs[i]);
    var pos := Positions(xs, xs[i]);
    assert {i, j} <= pos;
    assert |{i, j}| == 2;
    SubsetCard({i, j}, pos);
  }

  lemma SubsetCard<T>(a: set<T>, b: set<T>)
    requires a <= b
    ensures |a| <= |b|
  {
    assert b == a + (b - a);
  }

  /** Dropping the last entry of a duplicate-free sequence leaves one without that entry. */
  lemma DistinctSplit<T>(xs: seq<T>)
    requires |xs| > 0 && !HasDuplicates(xs)
    ensures !HasDuplicates(xs[..|xs| - 1])
    ensures xs[|xs| - 1] !in xs[..|xs| - 1]
  {
    var n := |xs| - 1;
    var prefix := xs[..n];
    forall i, j | 0 <= i < j < n
      ensures prefix[i] != prefix[j]
    {
      assert prefix[i] == xs[i] && prefix[j] == xs[j];
    }
    forall i | 0 <= i < n
      ensures prefix[i] != xs[n]
    {
      assert prefix[i] == xs[i];
    }
  }

  /** Appending a new value to a duplicate-free sequence keeps it duplicate-free. */
  lemma DistinctAppend<T>(xs: seq<T>, x: T)
    requires !HasDuplicates(xs) && x !in xs
    ensures !HasDuplicates(xs + [x])
    ensures Elements(xs + [x]) == Elements(xs) + {x}
  {
    var ys := xs + [x];
    forall i, j | 0 <= i < j < |ys|
      ensures ys[i] != ys[j]
    {
      assert ys[i] == xs[i];
      if j < |xs| {
        assert ys[j] == xs[j];
      }
    }
  }

  /** A duplicate in a concatenation lies inside one part or is shared between the parts. */
  lemma DuplicatesOfConcat<T>(a: seq<T>, b: seq<T>)
    ensures HasDuplicates(a + b) <==>
      HasDuplicates(a) || HasDuplicates(b) || exists x :: x in a && x in b
  {
    var ab := a + b;
    if HasDuplicates(ab) {
      var i, j :| 0 <= i < j < |ab| && ab[i] == ab[j];
      if j < |a| {
        assert a[i] == a[j];
      } else if i >= |a| {
        assert b[i - |a|] == b[j - |a|];
      } else {
        assert a[i] in a && b[j - |a|] in b;
      }
    }
    if HasDuplicates(a) {
      var i, j :| 0 <= i < j < |a| && a[i] == a[j];
      assert ab[i] == ab[j];
    }
    if HasDuplicates(b) {
      var i, j :| 0 <= i < j < |b| && b[i] == b[j];
      assert ab[i + |a|] == ab[j + |a|];
    }
    if exists x :: x in a && x in b {
      var x :| x in a && x in b;
      var i :| 0 <= i < |a| && a[i] == x;
      var j :| 0 <= j < |b| && b[j] == x;
      assert ab[i] == ab[j + |a|];
    }
  }
}
