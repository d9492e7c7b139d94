/**
 * Lattice points with integer coordinates, their Pareto (coordinate-wise)
 * partial order, the incremental skyline `min`, and the box enumerator
 * `gen_set` / `propagate_set`.
 *
 * A point's dimension is the length of `coords`; operations on two points
 * require equal dimensions, which the original enforces through its
 * const-generic array type.
 */
module Grid {
  import opened Orderings
  import opened Arithmetic

  datatype Point = Point(coords: seq<int>)

  function Dims(p: Point): nat { |p.coords| }

  // ---------------------------------------------------------------------
  // Norm and equality

  /** The sum of the squares of the coordinates. */
  function SumSquares(c: seq<int>): (sum: int)
  {
    if |c| == 0 then 0 else SumSquares(c[..|c| - 1]) + c[|c| - 1] * c[|c| - 1]
  }

  /** A sum of squares is never negative, and is zero exactly at the origin. */
  lemma {:induction false} SumSquaresZero(c: seq<int>)
    ensures SumSquares(c) >= 0
    ensures SumSquares(c) == 0 <==> forall i :: 0 <= i < |c| ==> c[i] == 0
  {
    if |c| > 0 {
      var init, last := c[..|c| - 1], c[|c| - 1];
      SumSquaresZero(init);
      SquareNonNegative(last);
      if SumSquares(c) == 0 {
        forall i | 0 <= i < |c|
          ensures c[i] == 0
        {
          if i < |c| - 1 {
            assert c[i] == init[i];
          }
        }
      }
      if forall i :: 0 <= i < |c| ==> c[i] == 0 {
        assert forall i :: 0 <= i < |init| ==> init[i] == 0 by {
          forall i | 0 <= i < |init|
            ensures init[i] == 0
          {
            assert init[i] == c[i];
          }
        }
      }
    }
  }

  /** `norm`: accumulates the squares of the coordinates, so it is ≥ 0 and 0 only at the origin. */
  method Norm(p: Point) returns (sum: int)
    ensures sum == SumSquares(p.coords)
    ensures sum >= 0
    ensures sum == 0 <==> forall i :: 0 <= i < Dims(p) ==> p.coords[i] == 0
  {
    sum := 0;
    for i := 0 to |p.coords|
      invariant sum == SumSquares(p.coords[..i])
    {
      assert p.coords[..i + 1][..i] == p.coords[..i];
      sum := sum + p.coords[i] * p.coords[i];
    }
    assert p.coords[..|p.coords|] == p.coords;
    SumSquaresZero(p.coords);
  }

  /** `==`: stops at the first coordinate that differs. */
  method Eq(a: Point, b: Point) returns (e: bool)
    requires Dims(a) == Dims(b)
    ensures e <==> a == b
  {
    for i := 0 to |a.coords|
      invariant a.coords[..i] == b.coords[..i]
    {
      if a.coords[i] != b.coords[i] {
        return false;
      }
    }
    assert a.coords == a.coords[..|a.coords|];
    assert b.coords == b.coords[..|b.coords|];
    return true;
  }

  // ---------------------------------------------------------------------
  // The Pareto partial order

  /** Some coordinate of `a` is smaller than the same coordinate of `b`. */
  predicate SomeSmaller(a: Point, b: Point)
  {
    exists i :: 0 <= i < |a.coords| && i < |b.coords| && a.coords[i] < b.coords[i]
  }

  /** What `partial_cmp` answers from its two flags: a coordinate smaller, a coordinate greater. */
  function Compare(a: Point, b: Point): (c: Option<Ordering>)
  {
    var smaller, greater := SomeSmaller(a, b), SomeSmaller(b, a);
    if smaller && greater then None
    else if greater then Some(Greater)
    else if smaller then Some(Less)
    else Some(Equal)
  }

  /** No coordinate of `a` exceeds the same coordinate of `b`. */
  predicate Le(a: Point, b: Point)
  {
    forall i :: 0 <= i < |a.coords| && i < |b.coords| ==> a.coords[i] <= b.coords[i]
  }

  /** `<`, as `PartialOrd` derives it from `partial_cmp`. */
  predicate Lt(a: Point, b: Point)
  {
    Compare(a, b) == Some(Less)
  }

  /**
   * `partial_cmp`: one pass over the coordinates setting the flags, left
   * early once both are set. The early exit does not change the answer.
   */
  method PartialCmp(a: Point, b: Point) returns (c: Option<Ordering>)
    requires Dims(a) == Dims(b)
    ensures c == Compare(a, b)
  {
    var smaller, greater := false, false;
    for i := 0 to |a.coords|
      invariant smaller <==> exists k :: 0 <= k < i && a.coords[k] < b.coords[k]
      invariant greater <==> exists k :: 0 <= k < i && a.coords[k] > b.coords[k]
    {
      match CompareInts(a.coords[i], b.coords[i]) {
        case Less => smaller := true;
        case Greater => greater := true;
        case Equal =>
      }
      if smaller && greater {
        break;
      }
    }
    c := match (smaller, greater)
      case (true, true) => None
      case (false, true) => Some(Greater)
      case (true, false) => Some(Less)
      case (false, false) => Some(Equal);
  }

  /**
   * The four answers of `partial_cmp` for points of equal dimension:
   * `Equal` exactly for equal points, `Less` when no coordinate is greater
   * and the points differ, `Greater` the mirror image, `None` when each
   * point has a coordinate above the other's.
   */
  lemma CompareClassifies(a: Point, b: Point)
    requires Dims(a) == Dims(b)
    ensures Compare(a, b) == Some(Equal) <==> a == b
    ensures Compare(a, b) == Some(Less) <==> Le(a, b) && a != b
    ensures Compare(a, b) == Some(Greater) <==> Le(b, a) && a != b
    ensures Compare(a, b) == None <==> !Le(a, b) && !Le(b, a)
  {
    if !SomeSmaller(a, b) && !SomeSmaller(b, a) {
      assert a.coords == b.coords by {
        forall i | 0 <= i < |a.coords|
          ensures a.coords[i] == b.coords[i]
        {
        }
      }
    }
  }

  /** Rust's `<=` (`Less` or `Equal`) means that no coordinate is greater. */
  lemma LeMatchesCompare(a: Point, b: Point)
    requires Dims(a) == Dims(b)
    ensures Le(a, b) <==> Compare(a, b) == Some(Less) || Compare(a, b) == Some(Equal)
  {
    CompareClassifies(a, b);
  }

  /** Swapping the operands swaps `Less` and `Greater` and keeps `Equal` and `None`. */
  lemma CompareSwap(a: Point, b: Point)
    ensures Compare(a, b) == Some(Less) <==> Compare(b, a) == Some(Greater)
    ensures Compare(a, b) == Some(Equal) <==> Compare(b, a) == Some(Equal)
    ensures Compare(a, b) == None <==> Compare(b, a) == None
  {
  }

  lemma LeReflexive(a: Point)
    ensures Le(a, a)
  {
  }

  lemma LeTransitive(a: Point, b: Point, c: Point)
    requires Dims(a) == Dims(b) == Dims(c)
    requires Le(a, b) && Le(b, c)
    ensures Le(a, c)
  {
    forall i | 0 <= i < |a.coords|
      ensures a.coords[i] <= c.coords[i]
    {
      assert a.coords[i] <= b.coords[i];
    }
  }

  /** If `a ≤ b` and `a ≰ c`, then `b ≰ c`: transitivity read backwards. */
  lemma NotLeThrough(a: Point, b: Point, c: Point)
    requires Dims(a) == Dims(b) == Dims(c)
    requires Le(a, b) && !Le(a, c)
    ensures !Le(b, c)
  {
    var i :| 0 <= i < |a.coords| && a.coords[i] > c.coords[i];
    assert b.coords[i] > c.coords[i];
  }

  /** A point strictly below another is not also above it. */
  lemma LeAntisymmetric(a: Point, b: Point)
    requires Dims(a) == Dims(b)
    requires Le(a, b) && a != b
    ensures !Le(b, a)
  {
    assert a.coords != b.coords;
    var i :| 0 <= i < |a.coords| && a.coords[i] != b.coords[i];
    assert b.coords[i] > a.coords[i];
  }

  // ---------------------------------------------------------------------
  // The skyline `min`

  /** All points have the same dimension. */
  predicate Uniform(points: seq<Point>)
  {
    forall i, j :: 0 <= i < |points| && 0 <= j < |points| ==> Dims(points[i]) == Dims(points[j])
  }

  /** Positions below `n`, strictly increasing: a subsequence of the input in input order. */
  predicate InOrder(mins: seq<nat>, n: nat)
  {
    (forall k :: 0 <= k < |mins| ==> mins[k] < n) &&
    (forall k, l :: 0 <= k < l < |mins| ==> mins[k] < mins[l])
  }

  /** Any two different kept positions hold incomparable points. */
  predicate Antichain(points: seq<Point>, mins: seq<nat>)
  {
    forall a, b :: a in mins && b in mins && a != b && a < |points| && b < |points| ==>
      Compare(points[a], points[b]) == None
  }

  /** Every one of the first `n` points has a kept point at or below it. */
  predicate Covers(points: seq<Point>, mins: seq<nat>, n: nat)
  {
    forall x :: 0 <= x < n && x < |points| ==>
      exists m :: m in mins && m < |points| && Le(points[m], points[x])
  }

  /** None of the first `n` points is strictly below a kept point. */
  predicate Minimal(points: seq<Point>, mins: seq<nat>, n: nat)
  {
    forall m, x :: m in mins && m < |points| && 0 <= x < n && x < |points| ==>
      !Lt(points[x], points[m])
  }

  /** What holds of `mins` after the first `n` points. */
  predicate Skyline(points: seq<Point>, mins: seq<nat>, n: nat)
  {
    n <= |points| && InOrder(mins, n) && Antichain(points, mins) && Covers(points, mins, n) && Minimal(points, mins, n)
  }

  /**
   * `min`: the Pareto-minimal points, as their positions in the input (the
   * original returns references to them). Each new point is compared with
   * the kept ones: a kept point above it is removed, one at or below it
   * discards it, incomparable ones stay; if it survives it is appended.
   * The result lists positions in input order, keeps pairwise incomparable
   * points, has a kept point at or below every input point, keeps no point
   * that another input point is strictly below, and never keeps two equal
   * points.
   */
  method Min(points: seq<Point>) returns (mins: seq<nat>)
    requires Uniform(points)
    ensures InOrder(mins, |points|)
    ensures Antichain(points, mins)
    ensures Covers(points, mins, |points|)
    ensures Minimal(points, mins, |points|)
    ensures forall a, b :: a in mins && b in mins && a != b ==> points[a] != points[b]
  {
    mins := [];
    for n := 0 to |points|
      invariant Skyline(points, mins, n)
    {
      var p := points[n];
      var isMin := true;
      var i := 0;
      ghost var before := mins;
      ScanStart(points, mins, n);
      while i < |mins|
        invariant Scanning(points, before, mins, n, i)
        invariant isMin
        decreases |mins| - i
      {
        var c := PartialCmp(p, points[mins[i]]);
        match c
        case Some(Less) =>
          ScanRemove(points, before, mins, n, i);
          mins := mins[..i] + mins[i + 1..];
        case Some(Greater) =>
          isMin := false;
          break;
        case Some(Equal) =>
          isMin := false;
          break;
        case None =>
          ScanPass(points, before, mins, n, i);
          i := i + 1;
      }
      assert Scanning(points, before, mins, n, i);
      if isMin {
        Accept(points, before, mins, n);
        mins := mins + [n];
      } else {
        Reject(points, before, mins, n, i);
      }
    }
    AntichainDistinct(points, mins);
  }

  /** Kept positions that are pairwise incomparable hold pairwise different points. */
  lemma AntichainDistinct(points: seq<Point>, mins: seq<nat>)
    requires Uniform(points) && InOrder(mins, |points|) && Antichain(points, mins)
    ensures forall a, b :: a in mins && b in mins && a != b ==> points[a] != points[b]
  {
    forall a, b | a in mins && b in mins && a != b
      ensures points[a] != points[b]
    {
      CompareClassifies(points[a], points[b]);
    }
  }

  /**
   * The state of the inner loop of `min` while point `n` is compared with
   * the kept positions: what is kept was kept before, what was removed is
   * strictly above point `n`, and the first `i` kept points are
   * incomparable with it.
   */
  predicate Scanning(points: seq<Point>, before: seq<nat>, mins: seq<nat>, n: nat, i: nat)
  {
    n < |points| && i <= |mins| && InOrder(mins, n) &&
    (forall m :: m in mins ==> m in before) &&
    (forall m :: m in before && m !in mins && m < |points| ==> Lt(points[n], points[m])) &&
    (forall k :: 0 <= k < i ==> Compare(points[n], points[mins[k]]) == None)
  }

  /** Before any comparison nothing has been removed or passed over. */
  lemma ScanStart(points: seq<Point>, mins: seq<nat>, n: nat)
    requires Skyline(points, mins, n) && n < |points|
    ensures Scanning(points, mins, mins, n, 0)
  {
  }

  /** Removing the kept point at position `i`, which point `n` is strictly below, keeps the scan state. */
  lemma ScanRemove(points: seq<Point>, before: seq<nat>, mins: seq<nat>, n: nat, i: nat)
    requires Scanning(points, before, mins, n, i) && i < |mins|
    requires Compare(points[n], points[mins[i]]) == Some(Less)
    ensures Scanning(points, before, mins[..i] + mins[i + 1..], n, i)
  {
    RemoveKeepsOrder(mins, i, n);
    var r := mins[..i] + mins[i + 1..];
    assert forall k :: 0 <= k < i ==> r[k] == mins[k];
  }

  /** A kept point incomparable with point `n` is passed over. */
  lemma ScanPass(points: seq<Point>, before: seq<nat>, mins: seq<nat>, n: nat, i: nat)
    requires Scanning(points, before, mins, n, i) && i < |mins|
    requires Compare(points[n], points[mins[i]]) == None
    ensures Scanning(points, before, mins, n, i + 1)
  {
  }

  lemma RemoveKeepsOrder(mins: seq<nat>, i: nat, n: nat)
    requires InOrder(mins, n) && i < |mins|
    ensures InOrder(mins[..i] + mins[i + 1..], n)
    ensures forall m :: m in mins[..i] + mins[i + 1..] <==> m in mins && m != mins[i]
  {
    var r := mins[..i] + mins[i + 1..];
    forall m
      ensures m in r <==> m in mins && m != mins[i]
    {
      if m in mins && m != mins[i] {
        var k :| 0 <= k < |mins| && mins[k] == m;
        if k < i {
          assert r[k] == m;
        } else {
          assert r[k - 1] == m;
        }
      }
    }
  }

  /** The point survived every comparison: appending it keeps the skyline properties. */
  lemma Accept(points: seq<Point>, before: seq<nat>, mins: seq<nat>, n: nat)
    requires Uniform(points) && n < |points|
    requires Skyline(points, before, n) && Scanning(points, before, mins, n, |mins|)
    ensures Skyline(points, mins + [n], n + 1)
  {
    ScanComplete(points, before, mins, n);
    AppendKeepsOrder(mins, n);
    AcceptAntichain(points, before, mins, n);
    AcceptCovers(points, before, mins, n);
    AcceptMinimal(points, before, mins, n);
  }

  /** Appending position `n` to positions all below `n` keeps them increasing. */
  lemma AppendKeepsOrder(mins: seq<nat>, n: nat)
    requires InOrder(mins, n)
    ensures InOrder(mins + [n], n + 1)
  {
    var r := mins + [n];
    assert forall k :: 0 <= k < |mins| ==> r[k] == mins[k];
  }

  /** After a full scan, point `n` is incomparable with every kept point. */
  lemma ScanComplete(points: seq<Point>, before: seq<nat>, mins: seq<nat>, n: nat)
    requires Scanning(points, before, mins, n, |mins|)
    ensures forall m :: m in mins && m < |points| ==> Compare(points[n], points[m]) == None
  {
    forall m | m in mins && m < |points|
      ensures Compare(points[n], points[m]) == None
    {
      var k :| 0 <= k < |mins| && mins[k] == m;
    }
  }

  lemma AcceptAntichain(points: seq<Point>, before: seq<nat>, mins: seq<nat>, n: nat)
    requires n < |points| && Antichain(points, before)
    requires forall m :: m in mins ==> m in before
    requires forall m :: m in mins && m < |points| ==> Compare(points[n], points[m]) == None
    ensures Antichain(points, mins + [n])
  {
    var r := mins + [n];
    forall a, b | a in r && b in r && a != b && a < |points| && b < |points|
      ensures Compare(points[a], points[b]) == None
    {
      CompareSwap(points[a], points[b]);
    }
  }

  lemma AcceptCovers(points: seq<Point>, before: seq<nat>, mins: seq<nat>, n: nat)
    requires Uniform(points) && n < |points| && Covers(points, before, n)
    requires forall m :: m in before && m !in mins && m < |points| ==> Lt(points[n], points[m])
    ensures Covers(points, mins + [n], n + 1)
  {
    var p, r := points[n], mins + [n];
    assert n in r;
    forall x | 0 <= x < n + 1 && x < |points|
      ensures exists m :: m in r && m < |points| && Le(points[m], points[x])
    {
      if x == n {
        LeReflexive(p);
      } else {
        var m :| m in before && m < |points| && Le(points[m], points[x]);
        if m in mins {
          assert m in r;
        } else {
          CompareClassifies(p, points[m]);
          LeTransitive(p, points[m], points[x]);
        }
      }
    }
  }

  lemma AcceptMinimal(points: seq<Point>, before: seq<nat>, mins: seq<nat>, n: nat)
    requires Uniform(points) && n < |points|
    requires Covers(points, before, n) && Minimal(points, before, n)
    requires forall m :: m in mins ==> m in before
    requires forall m :: m in before && m !in mins && m < |points| ==> Lt(points[n], points[m])
    requires forall m :: m in mins && m < |points| ==> Compare(points[n], points[m]) == None
    ensures Minimal(points, mins + [n], n + 1)
  {
    var p, r := points[n], mins + [n];
    forall m, x | m in r && m < |points| && 0 <= x < n + 1 && x < |points|
      ensures !Lt(points[x], points[m])
    {
      if m == n && x < n {
        NotBelowNew(points, before, mins, n, x);
      } else if m != n && x == n {
        CompareSwap(p, points[m]);
      }
    }
  }

  /** No earlier point is strictly below a point that survived every comparison. */
  lemma NotBelowNew(points: seq<Point>, before: seq<nat>, mins: seq<nat>, n: nat, x: nat)
    requires Uniform(points) && n < |points| && x < n
    requires Covers(points, before, n)
    requires forall m :: m in before && m !in mins && m < |points| ==> Lt(points[n], points[m])
    requires forall m :: m in mins && m < |points| ==> Compare(points[n], points[m]) == None
    ensures !Lt(points[x], points[n])
  {
    var p := points[n];
    var m :| m in before && m < |points| && Le(points[m], points[x]);
    CompareClassifies(points[x], p);
    CompareClassifies(p, points[m]);
    if m !in mins {
      LeAntisymmetric(p, points[m]);
    }
    NotLeThrough(points[m], points[x], p);
  }

  /** The point was found at or above the kept point at position `i`: dropping it keeps the skyline properties. */
  lemma Reject(points: seq<Point>, before: seq<nat>, mins: seq<nat>, n: nat, i: nat)
    requires Uniform(points) && n < |points|
    requires Skyline(points, before, n) && Scanning(points, before, mins, n, i) && i < |mins|
    requires Compare(points[n], points[mins[i]]) in {Some(Greater), Some(Equal)}
    ensures Skyline(points, mins, n + 1)
  {
    var p, w := points[n], points[mins[i]];
    CompareClassifies(p, w);
    assert Le(w, p);
    RejectCovers(points, before, mins, n, mins[i]);
    forall m | m in mins && m < |points|
      ensures !Lt(p, points[m])
    {
      CompareClassifies(p, points[m]);
      if m == mins[i] {
        if p != w {
          LeAntisymmetric(w, p);
        }
      } else {
        assert mins[i] in before;
        CompareClassifies(w, points[m]);
        NotLeThrough(w, p, points[m]);
      }
    }
  }

  lemma RejectCovers(points: seq<Point>, before: seq<nat>, mins: seq<nat>, n: nat, w: nat)
    requires Uniform(points) && n < |points| && w in mins && w < |points|
    requires Covers(points, before, n)
    requires forall m :: m in before && m !in mins && m < |points| ==> Lt(points[n], points[m])
    requires Le(points[w], points[n])
    ensures Covers(points, mins, n + 1)
  {
    var p := points[n];
    forall x | 0 <= x < n + 1 && x < |points|
      ensures exists m :: m in mins && m < |points| && Le(points[m], points[x])
    {
      if x < n {
        var m :| m in before && m < |points| && Le(points[m], points[x]);
        if m !in mins {
          CompareClassifies(p, points[m]);
          LeTransitive(points[w], p, points[m]);
          LeTransitive(points[w], points[m], points[x]);
        }
      }
    }
  }

  // ---------------------------------------------------------------------
  // The box enumerator `gen_set` / `propagate_set`

  /** The point with coordinate `dim` raised by one. */
  function Inc(s: Point, dim: nat): (r: Point)
    requires dim < Dims(s)
    ensures Dims(r) == Dims(s) && r.coords[dim] == s.coords[dim] + 1
    ensures forall j :: 0 <= j < Dims(s) && j != dim ==> r.coords[j] == s.coords[j]
  {
    Point(s.coords[dim := s.coords[dim] + 1])
  }

  /** Σ_{j<n} (u[j] − s[j]): how far `s` is below `u` in its first `n` coordinates. */
  function Slack(s: Point, u: Point, n: nat): (r: int)
    requires n <= Dims(s) && n <= Dims(u)
    ensures (forall j :: 0 <= j < n ==> s.coords[j] <= u.coords[j]) ==> r >= 0
  {
    if n == 0 then 0 else Slack(s, u, n - 1) + (u.coords[n - 1] - s.coords[n - 1])
  }

  /** The termination measure of `propagate_set`: 1 + the total slack inside the box, 0 outside. */
  function Measure(s: Point, u: Point): (m: nat)
    requires Dims(s) == Dims(u)
  {
    if Le(s, u) then 1 + Slack(s, u, Dims(s)) else 0
  }

  /** Raising one coordinate lowers the slack by exactly one. */
  lemma {:induction false} SlackInc(s: Point, u: Point, dim: nat, n: nat)
    requires dim < Dims(s) && n <= Dims(s) == Dims(u)
    ensures Slack(Inc(s, dim), u, n) == Slack(s, u, n) - (if dim < n then 1 else 0)
  {
    if n > 0 {
      SlackInc(s, u, dim, n - 1);
    }
  }

  /** Every recursive call of `propagate_set` lowers the measure. */
  lemma MeasureDrops(s: Point, u: Point, dim: nat)
    requires Dims(s) == Dims(u) && dim < Dims(s) && Le(s, u)
    ensures Measure(Inc(s, dim), u) < Measure(s, u)
  {
    SlackInc(s, u, dim, Dims(s));
  }

  /**
   * The points `propagate_set` pushes from `s` with `dim_start = d`, in
   * push order: `s` itself when the predicate holds, then the points
   * reached through each dimension from `d` on — nothing when `s` is not
   * at or below `u`.
   */
  function Enum(pred: Point -> bool, s: Point, u: Point, d: nat): (found: seq<Point>)
    requires Dims(s) == Dims(u) && d <= Dims(s)
    decreases Measure(s, u), 1, 0
  {
    if Le(s, u) then (if pred(s) then [s] else []) + Branches(pred, s, u, d, Dims(s)) else []
  }

  /** The recursive calls for dimensions `lo` up to (not including) `hi`, in loop order. */
  function Branches(pred: Point -> bool, s: Point, u: Point, lo: nat, hi: nat): (found: seq<Point>)
    requires Dims(s) == Dims(u) && lo <= hi <= Dims(s) && Le(s, u)
    decreases Measure(s, u), 0, hi
  {
    if hi == lo then []
    else
      MeasureDrops(s, u, hi - 1);
      Branches(pred, s, u, lo, hi - 1) + Enum(pred, Inc(s, hi - 1), u, hi - 1)
  }

  /** One more dimension appends the enumeration of the box stepped along it. */
  lemma BranchesStep(pred: Point -> bool, s: Point, u: Point, lo: nat, dim: nat)
    requires Dims(s) == Dims(u) && lo <= dim < Dims(s) && Le(s, u)
    ensures Measure(Inc(s, dim), u) < Measure(s, u)
    ensures Branches(pred, s, u, lo, dim + 1) == Branches(pred, s, u, lo, dim) + Enum(pred, Inc(s, dim), u, dim)
  {
    MeasureDrops(s, u, dim);
  }

  /** The enumeration of an empty box is empty; otherwise it is its corner, if accepted, then its branches. */
  lemma EnumUnfold(pred: Point -> bool, s: Point, u: Point, d: nat)
    requires Dims(s) == Dims(u) && d <= Dims(s)
    ensures !Le(s, u) ==> Enum(pred, s, u, d) == []
    ensures Le(s, u) ==> Enum(pred, s, u, d) == (if pred(s) then [s] else []) + Branches(pred, s, u, d, Dims(s))
  {
  }

  /**
   * `propagate_set`: appends to `set` what the enumeration from `start`
   * produces. The vector the original shares by `&mut` is passed in and
   * returned.
   */
  method PropagateSet(found: seq<Point>, pred: Point -> bool, start: Point, upper: Point, dimStart: nat)
    returns (out: seq<Point>)
    requires Dims(start) == Dims(upper) && dimStart <= Dims(start)
    ensures out == found + Enum(pred, start, upper, dimStart)
    decreases Measure(start, upper), 1
  {
    out := found;
    var c := PartialCmp(start, upper);
    LeMatchesCompare(start, upper);
    EnumUnfold(pred, start, upper, dimStart);
    if c == Some(Less) || c == Some(Equal) {
      if pred(start) {
        out := out + [start];
      }
      out := PropagateBranches(out, pred, start, upper, dimStart);
    }
  }

  /** The loop of `propagate_set`: one recursive enumeration per dimension from `dimStart` on. */
  method PropagateBranches(found: seq<Point>, pred: Point -> bool, start: Point, upper: Point, dimStart: nat)
    returns (out: seq<Point>)
    requires Dims(start) == Dims(upper) && dimStart <= Dims(start) && Le(start, upper)
    ensures out == found + Branches(pred, start, upper, dimStart, Dims(start))
    decreases Measure(start, upper), 0
  {
    out := found;
    for dim := dimStart to Dims(start)
      invariant out == found + Branches(pred, start, upper, dimStart, dim)
    {
      var newPoint := start;
      newPoint := Point(newPoint.coords[dim := newPoint.coords[dim] + 1]);
      assert newPoint == Inc(start, dim);
      BranchesStep(pred, start, upper, dimStart, dim);
      out := PropagateSet(out, pred, newPoint, upper, dim);
    }
  }


  /** `x` lies in the box from `s` to `u` and has the same dimension. */
  predicate InBox(s: Point, x: Point, u: Point)
  {
    Dims(x) == Dims(s) && Le(s, x) && Le(x, u)
  }

  /** `x` and `s` agree on every coordinate below `d`. */
  predicate AgreeBelow(x: Point, s: Point, d: nat)
  {
    forall j :: 0 <= j < d && j < Dims(x) && j < Dims(s) ==> x.coords[j] == s.coords[j]
  }

  /** Some coordinate in `[lo, hi)` of `x` differs from that of `s`. */
  predicate DiffersIn(x: Point, s: Point, lo: nat, hi: nat)
  {
    exists j :: lo <= j < hi && j < Dims(x) && j < Dims(s) && x.coords[j] != s.coords[j]
  }

  /**
   * The enumeration from `s` with start dimension `d` holds `x` exactly
   * once when `x` is in the box, agrees with `s` below `d` and satisfies
   * the predicate, and not at all otherwise.
   */
  lemma {:induction false} EnumCount(pred: Point -> bool, s: Point, u: Point, d: nat, x: Point)
    requires Dims(s) == Dims(u) && d <= Dims(s)
    ensures multiset(Enum(pred, s, u, d))[x]
         == if InBox(s, x, u) && AgreeBelow(x, s, d) && pred(x) then 1 else 0
    decreases Measure(s, u), 1, 0
  {
    if Le(s, u) {
      BranchesCount(pred, s, u, d, Dims(s), x);
      if x == s {
        LeReflexive(s);
      } else if InBox(s, x, u) && AgreeBelow(x, s, d) {
        DiffersWhenUnequal(x, s, d);
      }
    } else if InBox(s, x, u) {
      LeTransitive(s, x, u);
    }
  }

  /** A point that agrees with `s` below `d` but is not `s` differs from it at or above `d`. */
  lemma DiffersWhenUnequal(x: Point, s: Point, d: nat)
    requires Dims(x) == Dims(s) && d <= Dims(s) && AgreeBelow(x, s, d) && x != s
    ensures DiffersIn(x, s, d, Dims(s))
  {
    assert x.coords != s.coords;
    var j :| 0 <= j < Dims(s) && x.coords[j] != s.coords[j];
    assert d <= j;
  }

  /**
   * The recursive calls for dimensions `[lo, hi)` hold `x` exactly once
   * when `x` is in the box, agrees with `s` below `lo`, satisfies the
   * predicate and differs from `s` somewhere in `[lo, hi)`: only the call
   * for the first such dimension reaches it.
   */
  lemma {:induction false} BranchesCount(pred: Point -> bool, s: Point, u: Point, lo: nat, hi: nat, x: Point)
    requires Dims(s) == Dims(u) && lo <= hi <= Dims(s) && Le(s, u)
    ensures multiset(Branches(pred, s, u, lo, hi))[x]
         == if InBox(s, x, u) && AgreeBelow(x, s, lo) && pred(x) && DiffersIn(x, s, lo, hi) then 1 else 0
    decreases Measure(s, u), 0, hi
  {
    if hi > lo {
      var dim := hi - 1;
      MeasureDrops(s, u, dim);
      assert Branches(pred, s, u, lo, hi) == Branches(pred, s, u, lo, dim) + Enum(pred, Inc(s, dim), u, dim);
      BranchesCount(pred, s, u, lo, dim, x);
      EnumCount(pred, Inc(s, dim), u, dim, x);
      ChildReaches(s, u, lo, dim, x);
      if Dims(x) == Dims(s) {
        DiffersSplit(x, s, lo, dim);
        CountStep(multiset(Branches(pred, s, u, lo, dim))[x], multiset(Enum(pred, Inc(s, dim), u, dim))[x],
                  InBox(s, x, u) && AgreeBelow(x, s, lo) && pred(x), DiffersIn(x, s, lo, dim),
                  x.coords[dim] != s.coords[dim], AgreeBelow(x, s, dim),
                  InBox(Inc(s, dim), x, u) && AgreeBelow(x, Inc(s, dim), dim) && pred(x),
                  DiffersIn(x, s, lo, hi));
      }
    }
  }

  /** The counting step of `BranchesCount`, with every predicate already evaluated. */
  lemma CountStep(before: int, child: int, inside: bool, earlier: bool, here: bool,
                  agreeBelow: bool, reaches: bool, anywhere: bool)
    requires before == if inside && earlier then 1 else 0
    requires child == if reaches then 1 else 0
    requires reaches <==> inside && agreeBelow && here
    requires inside ==> (agreeBelow <==> !earlier)
    requires anywhere <==> earlier || here
    ensures before + child == if inside && anywhere then 1 else 0
  {
  }

  /**
   * The call for dimension `dim` reaches `x` exactly when `x` is in the
   * box, agrees with `s` below `lo` and below `dim`, and differs from `s`
   * at `dim`.
   */
  lemma ChildReaches(s: Point, u: Point, lo: nat, dim: nat, x: Point)
    requires Dims(s) == Dims(u) && lo <= dim < Dims(s)
    ensures InBox(Inc(s, dim), x, u) && AgreeBelow(x, Inc(s, dim), dim)
        <==> InBox(s, x, u) && AgreeBelow(x, s, lo) && AgreeBelow(x, s, dim) && x.coords[dim] != s.coords[dim]
  {
    var t := Inc(s, dim);
    if InBox(t, x, u) && AgreeBelow(x, t, dim) {
      assert Le(s, x) by {
        forall j | 0 <= j < Dims(s)
          ensures s.coords[j] <= x.coords[j]
        {
          assert t.coords[j] <= x.coords[j];
        }
      }
      assert x.coords[dim] >= t.coords[dim];
    }
    if InBox(s, x, u) && AgreeBelow(x, s, dim) && x.coords[dim] != s.coords[dim] {
      assert x.coords[dim] >= s.coords[dim];
      assert Le(t, x) by {
        forall j | 0 <= j < Dims(t)
          ensures t.coords[j] <= x.coords[j]
        {
          assert s.coords[j] <= x.coords[j];
        }
      }
    }
  }

  /**
   * For `x` agreeing with `s` below `lo`: either it differs somewhere in
   * `[lo, dim)` and so disagrees below `dim`, or it agrees below `dim`.
   */
  lemma DiffersSplit(x: Point, s: Point, lo: nat, dim: nat)
    requires Dims(x) == Dims(s) && lo <= dim < Dims(s)
    ensures DiffersIn(x, s, lo, dim + 1) <==> DiffersIn(x, s, lo, dim) || x.coords[dim] != s.coords[dim]
    ensures AgreeBelow(x, s, lo) ==> (AgreeBelow(x, s, dim) <==> !DiffersIn(x, s, lo, dim))
  {
    if AgreeBelow(x, s, lo) && !DiffersIn(x, s, lo, dim) {
      forall j | 0 <= j < dim
        ensures x.coords[j] == s.coords[j]
      {
        if j >= lo {
          assert !(lo <= j < dim && j < Dims(x) && j < Dims(s) && x.coords[j] != s.coords[j]);
        }
      }
    }
  }

  /**
   * `gen_set`: every point in the box from `lower` to `upper` that
   * satisfies the predicate, each exactly once, and nothing else; nothing
   * at all when `lower` is not at or below `upper`.
   */
  method GenSet(lower: Point, upper: Point, pred: Point -> bool) returns (found: seq<Point>)
    requires Dims(lower) == Dims(upper)
    ensures found == Enum(pred, lower, upper, 0)
    ensures forall x :: x in found ==> pred(x) && InBox(lower, x, upper)
    ensures forall x :: InBox(lower, x, upper) && pred(x) ==> multiset(found)[x] == 1
    ensures !Le(lower, upper) ==> found == []
  {
    found := PropagateSet([], pred, lower, upper, 0);
    forall x
      ensures multiset(found)[x] == if InBox(lower, x, upper) && pred(x) then 1 else 0
    {
      EnumCount(pred, lower, upper, 0, x);
    }
  }
}
