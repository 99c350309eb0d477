/** The unit-cost edit distance used to match unit tokens against the
    vocabulary (`levenshtein` in app.py): a recursive definition over string
    prefixes, its algebraic properties, and the one-row dynamic program the
    program actually runs, proved equal to it. */
module EditDistance {
  import opened Text

  function Min3(x: nat, y: nat, z: nat): (m: nat)
    ensures m <= x && m <= y && m <= z
    ensures m == x || m == y || m == z
  {
    if x <= y && x <= z then x else if y <= z then y else z
  }

  function Max(x: nat, y: nat): nat { if x >= y then x else y }

  /** Substitution cost of the last characters. */
  function Cost(x: char, y: char): nat { if x == y then 0 else 1 }

  /** The least number of single-character insertions, deletions and
      substitutions turning `a` into `b`, by the textbook recurrence on the
      last characters. */
  function Dist(a: string, b: string): nat
    decreases |a| + |b|
  {
    if |a| == 0 then |b|
    else if |b| == 0 then |a|
    else Min3(Dist(a[..|a| - 1], b) + 1,
              Dist(a, b[..|b| - 1]) + 1,
              Dist(a[..|a| - 1], b[..|b| - 1]) + Cost(a[|a| - 1], b[|b| - 1]))
  }

  /** The distance `levenshtein(a, b)` computes: case-insensitive. */
  function Levenshtein(a: string, b: string): nat
  {
    Dist(Lower(a), Lower(b))
  }

  lemma {:induction false} DistSelf(a: string)
    ensures Dist(a, a) == 0
    decreases |a|
  {
    if |a| > 0 {
      DistSelf(a[..|a| - 1]);
    }
  }

  /** Distance is at least the difference of the lengths and at most the
      longer length. */
  lemma {:induction false} DistBounds(a: string, b: string)
    ensures |a| - |b| <= Dist(a, b) && |b| - |a| <= Dist(a, b)
    ensures Dist(a, b) <= Max(|a|, |b|)
    decreases |a| + |b|
  {
    if |a| > 0 && |b| > 0 {
      DistBounds(a[..|a| - 1], b);
      DistBounds(a, b[..|b| - 1]);
      DistBounds(a[..|a| - 1], b[..|b| - 1]);
    }
  }

  /** Distance zero means equal strings, and only then. */
  lemma {:induction false} DistZeroIff(a: string, b: string)
    ensures Dist(a, b) == 0 <==> a == b
    decreases |a| + |b|
  {
    if a == b {
      DistSelf(a);
    }
    if Dist(a, b) == 0 {
      DistBounds(a, b);
      if |a| > 0 {
        DistBounds(a[..|a| - 1], b);
        DistBounds(a, b[..|b| - 1]);
        DistZeroIff(a[..|a| - 1], b[..|b| - 1]);
        assert a == a[..|a| - 1] + [a[|a| - 1]];
        assert b == b[..|b| - 1] + [b[|b| - 1]];
      }
    }
  }

  lemma {:induction false} DistSymmetric(a: string, b: string)
    ensures Dist(a, b) == Dist(b, a)
    decreases |a| + |b|
  {
    if |a| > 0 && |b| > 0 {
      DistSymmetric(a[..|a| - 1], b);
      DistSymmetric(a, b[..|b| - 1]);
      DistSymmetric(a[..|a| - 1], b[..|b| - 1]);
    }
  }

  /** Editing `a` into `b` and then `b` into `c` is one way of editing `a`
      into `c`. */
  lemma {:induction false} DistTriangle(a: string, b: string, c: string)
    ensures Dist(a, c) <= Dist(a, b) + Dist(b, c)
    decreases |a| + |b| + |c|
  {
    if |a| == 0 {
      DistBounds(b, c);
    } else if |c| == 0 {
      DistBounds(a, b);
    } else if |b| == 0 {
      DistBounds(a, c);
    } else {
      var a', b', c' := a[..|a| - 1], b[..|b| - 1], c[..|c| - 1];
      var x, y, z := a[|a| - 1], b[|b| - 1], c[|c| - 1];
      if Dist(a, b) == Dist(a', b) + 1 {
        DistTriangle(a', b, c);
      } else if Dist(b, c) == Dist(b, c') + 1 {
        DistTriangle(a, b, c');
      } else if Dist(a, b) == Dist(a, b') + 1 {
        if Dist(b, c) == Dist(b', c) + 1 {
          DistTriangle(a, b', c);
        } else {
          DistTriangle(a, b', c');
        }
      } else {
        assert Dist(a, b) == Dist(a', b') + Cost(x, y);
        if Dist(b, c) == Dist(b', c) + 1 {
          DistTriangle(a', b', c);
        } else {
          assert Dist(b, c) == Dist(b', c') + Cost(y, z);
          DistTriangle(a', b', c');
        }
      }
    }
  }

  /** Strings with no character in common are as far apart as the longer one
      is long: every position of it costs an edit. */
  lemma {:induction false} DistDisjoint(a: string, b: string)
    requires forall i, j :: 0 <= i < |a| && 0 <= j < |b| ==> a[i] != b[j]
    ensures Dist(a, b) == Max(|a|, |b|)
    decreases |a| + |b|
  {
    if |a| > 0 && |b| > 0 {
      DistDisjoint(a[..|a| - 1], b);
      DistDisjoint(a, b[..|b| - 1]);
      DistDisjoint(a[..|a| - 1], b[..|b| - 1]);
    }
  }

  /** The case-insensitive distance `levenshtein` computes is a metric on
      lower-cased strings, bounded by the lengths. */
  lemma LevenshteinMetric(a: string, b: string, c: string)
    ensures Levenshtein(a, b) == 0 <==> Lower(a) == Lower(b)
    ensures Levenshtein(a, b) == Levenshtein(b, a)
    ensures Levenshtein(a, c) <= Levenshtein(a, b) + Levenshtein(b, c)
    ensures |a| - |b| <= Levenshtein(a, b) && |b| - |a| <= Levenshtein(a, b)
    ensures Levenshtein(a, b) <= Max(|a|, |b|)
  {
    DistZeroIff(Lower(a), Lower(b));
    DistSymmetric(Lower(a), Lower(b));
    DistTriangle(Lower(a), Lower(b), Lower(c));
    DistBounds(Lower(a), Lower(b));
  }

  /** The recurrence read on prefixes, the form the table rows use: the
      cell for `a[..i]` and `b[..j]` is the least of its three candidates. */
  lemma DistPrefixStep(a: string, b: string, i: nat, j: nat, ins: nat, del: nat, rep: nat)
    requires 1 <= i <= |a| && 1 <= j <= |b|
    requires ins == Dist(a[..i - 1], b[..j]) + 1
    requires del == Dist(a[..i], b[..j - 1]) + 1
    requires rep == Dist(a[..i - 1], b[..j - 1]) + Cost(a[i - 1], b[j - 1])
    ensures Dist(a[..i], b[..j]) == Min3(ins, del, rep)
  {
    assert a[..i][..i - 1] == a[..i - 1];
    assert b[..j][..j - 1] == b[..j - 1];
  }

  /** One pass of the inner loop: from the row for `a[..i-1]` build the row
      for `a[..i]`, left to right, starting from `i`. */
  method NextRow(a: string, b: string, i: nat, prev: seq<nat>) returns (curr: seq<nat>)
    requires 1 <= i <= |a|
    requires |prev| == |b| + 1
    requires forall j :: 0 <= j <= |b| ==> prev[j] == Dist(a[..i - 1], b[..j])
    ensures |curr| == |b| + 1
    ensures forall j :: 0 <= j <= |b| ==> curr[j] == Dist(a[..i], b[..j])
  {
    var ca := a[i - 1];
    curr := [i];
    var j := 1;
    while j <= |b|
      invariant 1 <= j <= |b| + 1
      invariant |curr| == j
      invariant forall k :: 0 <= k < j ==> curr[k] == Dist(a[..i], b[..k])
    {
      var cb := b[j - 1];
      var insertCost := prev[j] + 1;
      var deleteCost := curr[j - 1] + 1;
      var replaceCost := prev[j - 1] + (if ca == cb then 0 else 1);
      var cell := Min3(insertCost, deleteCost, replaceCost);
      assert insertCost == Dist(a[..i - 1], b[..j]) + 1;
      assert deleteCost == Dist(a[..i], b[..j - 1]) + 1;
      assert replaceCost == Dist(a[..i - 1], b[..j - 1]) + Cost(a[i - 1], b[j - 1]);
      DistPrefixStep(a, b, i, j, insertCost, deleteCost, replaceCost);
      curr := curr + [cell];
      j := j + 1;
    }
  }

  /** The row-reuse dynamic program of `levenshtein`: lower-case both
      strings, answer the equal and empty cases at once, otherwise fill one row
      of the distance table per character of `a`. */
  method LevenshteinRows(a0: string, b0: string) returns (d: nat)
    ensures d == Levenshtein(a0, b0)
    ensures Lower(a0) == Lower(b0) ==> d == 0
    ensures |a0| == 0 ==> d == |b0|
    ensures |b0| == 0 ==> d == |a0|
  {
    var a, b := Lower(a0), Lower(b0);
    if a == b {
      DistSelf(a);
      return 0;
    }
    if |a| == 0 {
      return |b|;
    }
    if |b| == 0 {
      return |a|;
    }
    var prev: seq<nat> := seq(|b| + 1, j => j);
    var i := 1;
    while i <= |a|
      invariant 1 <= i <= |a| + 1
      invariant |prev| == |b| + 1
      invariant forall j :: 0 <= j <= |b| ==> prev[j] == Dist(a[..i - 1], b[..j])
    {
      prev := NextRow(a, b, i, prev);
      i := i + 1;
    }
    assert a[..|a|] == a && b[..|b|] == b;
    d := prev[|b|];
  }
}
