/** Decoding: nearest key column per point, points taken in ascending y. */
module Decoder {
  import opened Text
  import opened Layout

  // ---------------------------------------------------------------------
  // nearestKeyIndex

  /** Distance along the x axis from column `i` to `x`. */
  function Dist(i: int, x: real): real { Abs(ColX(i) - x) }

  /**
   * The index nearestKeyIndex returns for a key of length `n`: the scan
   * over columns 0 .. n-1 that moves to a column only when it is strictly
   * nearer than the best so far.
   */
  function Nearest(n: nat, x: real): (r: nat)
    ensures n == 0 ==> r == 0
    ensures n > 0 ==> r < n
  {
    if n <= 1 then 0
    else
      var best := Nearest(n - 1, x);
      if Dist(n - 1, x) < Dist(best, x) then n - 1 else best
  }

  /** `r` is the lowest index among the columns nearest to `x`; 0 for no columns. */
  ghost predicate IsNearest(n: nat, x: real, r: nat)
  {
    if n == 0 then r == 0
    else
      && r < n
      && (forall j :: 0 <= j < n ==> Dist(r, x) <= Dist(j, x))
      && (forall j :: 0 <= j < r ==> Dist(r, x) < Dist(j, x))
  }

  lemma {:induction false} NearestIsLowestArgmin(n: nat, x: real)
    ensures IsNearest(n, x, Nearest(n, x))
  {
    if n > 1 {
      NearestIsLowestArgmin(n - 1, x);
    }
  }

  /** The lowest nearest column is unique, so the scan is the only answer. */
  lemma NearestIsUnique(n: nat, x: real, r: nat)
    requires IsNearest(n, x, r)
    ensures r == Nearest(n, x)
  {
    NearestIsLowestArgmin(n, x);
  }

  /** The x of a column decodes back to that column. */
  lemma NearestOfColumn(n: nat, k: nat)
    requires k < n
    ensures Nearest(n, ColX(k)) == k
  {
    var x := ColX(k);
    forall j | 0 <= j < n && j != k ensures Dist(j, x) > 0.0 {
      ColumnsApart(j, k);
    }
    assert IsNearest(n, x, k);
    NearestIsUnique(n, x, k);
  }

  /** nearestKeyIndex: linear scan keeping the best index and its distance. */
  method NearestKeyIndex(key: string, x: real) returns (bestI: nat)
    ensures bestI == Nearest(|key|, x)
    ensures IsNearest(|key|, x, bestI)
  {
    bestI := 0;
    var bestD := 0.0;  // read only once i > 0; before that it stands for Infinity
    var i := 0;
    while i < |key|
      invariant 0 <= i <= |key|
      invariant bestI == Nearest(i, x)
      invariant i > 0 ==> bestD == Dist(bestI, x)
    {
      var cx := ColX(i);
      var d := Abs(cx - x);
      if i == 0 || d < bestD {
        bestD := d;
        bestI := i;
      }
      i := i + 1;
    }
    NearestIsLowestArgmin(|key|, x);
  }

  // ---------------------------------------------------------------------
  // Stable sort by y

  predicate SortedByY(s: seq<Point>)
  {
    forall i, j :: 0 <= i < j < |s| ==> s[i].y <= s[j].y
  }

  /** Insert `p` after every element whose y is not greater than its own. */
  function InsertByY(p: Point, s: seq<Point>): (r: seq<Point>)
    ensures |r| == |s| + 1
    ensures multiset(r) == multiset(s) + multiset{p}
  {
    if s == [] then [p]
    else if p.y < s[0].y then [p] + s
    else
      assert s == [s[0]] + s[1..];
      [s[0]] + InsertByY(p, s[1..])
  }

  /** Inserting a point no lower than `b` into points no lower than `b` keeps them so. */
  lemma {:induction false} InsertByYLowerBound(p: Point, s: seq<Point>, b: real)
    requires p.y >= b
    requires forall i :: 0 <= i < |s| ==> s[i].y >= b
    ensures forall k :: 0 <= k < |InsertByY(p, s)| ==> InsertByY(p, s)[k].y >= b
  {
    if s != [] && p.y >= s[0].y {
      InsertByYLowerBound(p, s[1..], b);
    }
  }

  /** Insertion keeps a sorted list sorted. */
  lemma {:induction false} InsertByYSorted(p: Point, s: seq<Point>)
    requires SortedByY(s)
    ensures SortedByY(InsertByY(p, s))
  {
    if s == [] {
    } else if p.y < s[0].y {
      assert forall i :: 0 <= i < |s| ==> s[0].y <= s[i].y;
    } else {
      var rest := InsertByY(p, s[1..]);
      InsertByYSorted(p, s[1..]);
      InsertByYLowerBound(p, s[1..], s[0].y);
      assert InsertByY(p, s) == [s[0]] + rest;
    }
  }

  /** The points ordered by ascending y, equal y values kept in input order (insertion sort). */
  function SortByY(s: seq<Point>): (r: seq<Point>)
    ensures |r| == |s|
    ensures multiset(r) == multiset(s)
    ensures SortedByY(r)
  {
    if s == [] then []
    else
      assert s == s[..|s| - 1] + [s[|s| - 1]];
      InsertByYSorted(s[|s| - 1], SortByY(s[..|s| - 1]));
      InsertByY(s[|s| - 1], SortByY(s[..|s| - 1]))
  }

  /** The elements of `s` with y equal to `v`, in order. */
  function WithY(s: seq<Point>, v: real): seq<Point>
  {
    if s == [] then [] else (if s[0].y == v then [s[0]] else []) + WithY(s[1..], v)
  }

  lemma {:induction false} WithYAppend(a: seq<Point>, b: seq<Point>, v: real)
    ensures WithY(a + b, v) == WithY(a, v) + WithY(b, v)
  {
    if a != [] {
      assert (a + b)[1..] == a[1..] + b;
      WithYAppend(a[1..], b, v);
    } else {
      assert a + b == b;
    }
  }

  lemma {:induction false} WithYAbove(s: seq<Point>, v: real)
    requires forall i :: 0 <= i < |s| ==> s[i].y > v
    ensures WithY(s, v) == []
  {
    if s != [] {
      WithYAbove(s[1..], v);
    }
  }

  /** The first element's contribution to WithY. */
  lemma WithYCons(x: Point, s: seq<Point>, v: real)
    ensures WithY([x] + s, v) == (if x.y == v then [x] else []) + WithY(s, v)
  {
    assert ([x] + s)[1..] == s;
  }

  /** A point below the whole sorted list goes first, and comes first in WithY. */
  lemma InsertByYFrontStable(p: Point, s: seq<Point>, v: real)
    requires SortedByY(s) && s != [] && p.y < s[0].y
    ensures WithY(InsertByY(p, s), v) == WithY(s, v) + (if p.y == v then [p] else [])
  {
    assert InsertByY(p, s) == [p] + s;
    WithYCons(p, s, v);
    if p.y == v {
      assert forall i :: 0 <= i < |s| ==> s[0].y <= s[i].y;
      WithYAbove(s, v);
    } else {
      assert WithY(s, v) + [] == WithY(s, v);
    }
  }

  /**
   * Associativity of `+` on point lists, stated apart so that the solver
   * proves it in a small context rather than inside the stability proof.
   */
  lemma AppendAssociates(a: seq<Point>, b: seq<Point>, c: seq<Point>)
    ensures a + (b + c) == (a + b) + c
  {
  }

  /** A point passed over by the insertion leaves the head first in WithY. */
  lemma InsertByYBehindStable(p: Point, s: seq<Point>, v: real)
    requires s != [] && p.y >= s[0].y
    requires WithY(InsertByY(p, s[1..]), v) == WithY(s[1..], v) + (if p.y == v then [p] else [])
    ensures WithY(InsertByY(p, s), v) == WithY(s, v) + (if p.y == v then [p] else [])
  {
    var rest := InsertByY(p, s[1..]);
    assert InsertByY(p, s) == [s[0]] + rest;
    WithYCons(s[0], rest, v);
    var a := if s[0].y == v then [s[0]] else [];
    var c := if p.y == v then [p] else [];
    var tail := WithY(s[1..], v);
    assert WithY(InsertByY(p, s), v) == a + (tail + c);
    assert WithY(s, v) == a + tail;
    AppendAssociates(a, tail, c);
  }

  lemma {:induction false} InsertByYStable(p: Point, s: seq<Point>, v: real)
    requires SortedByY(s)
    ensures WithY(InsertByY(p, s), v) == WithY(s, v) + (if p.y == v then [p] else [])
  {
    if s == [] {
      WithYCons(p, [], v);
    } else if p.y < s[0].y {
      InsertByYFrontStable(p, s, v);
    } else {
      InsertByYStable(p, s[1..], v);
      InsertByYBehindStable(p, s, v);
    }
  }

  /** The last element's contribution to WithY. */
  lemma WithYSnoc(s: seq<Point>, v: real)
    requires s != []
    ensures WithY(s, v) == WithY(s[..|s| - 1], v) + (if s[|s| - 1].y == v then [s[|s| - 1]] else [])
  {
    var last := s[|s| - 1];
    assert s == s[..|s| - 1] + [last];
    WithYAppend(s[..|s| - 1], [last], v);
    assert [last][1..] == [];
  }

  /** Stability: points with equal y keep their relative order. */
  lemma {:induction false} SortByYStable(s: seq<Point>, v: real)
    ensures WithY(SortByY(s), v) == WithY(s, v)
  {
    if s != [] {
      var init := s[..|s| - 1];
      SortByYStable(init, v);
      InsertByYStable(s[|s| - 1], SortByY(init), v);
      WithYSnoc(s, v);
    }
  }

  lemma {:induction false} InsertByYAtEnd(p: Point, s: seq<Point>)
    requires forall i :: 0 <= i < |s| ==> s[i].y <= p.y
    ensures InsertByY(p, s) == s + [p]
  {
    if s != [] {
      InsertByYAtEnd(p, s[1..]);
    }
  }

  /** Input already in ascending y comes out unchanged. */
  lemma {:induction false} SortByYOfSorted(s: seq<Point>)
    requires SortedByY(s)
    ensures SortByY(s) == s
  {
    if s != [] {
      var init := s[..|s| - 1];
      SortByYOfSorted(init);
      InsertByYAtEnd(s[|s| - 1], init);
    }
  }

  /** No two different points share a y coordinate. */
  ghost predicate DistinctY(s: seq<Point>)
  {
    forall p, q :: p in s && q in s && p.y == q.y ==> p == q
  }

  lemma SortedPermutationsSameHead(a: seq<Point>, b: seq<Point>)
    requires a != [] && b != []
    requires SortedByY(a) && SortedByY(b)
    requires multiset(a) == multiset(b)
    requires DistinctY(a)
    ensures a[0] == b[0]
  {
    assert a[0] in multiset(b);
    assert b[0] in multiset(a);
    var i :| 0 <= i < |a| && a[i] == b[0];
    var j :| 0 <= j < |b| && b[j] == a[0];
    assert a[0].y <= a[i].y;
    assert b[0].y <= b[j].y;
  }

  lemma MultisetTail(a: seq<Point>)
    requires a != []
    ensures multiset(a[1..]) == multiset(a) - multiset{a[0]}
  {
    assert a == [a[0]] + a[1..];
  }

  lemma {:induction false} SortedPermutationsAgree(a: seq<Point>, b: seq<Point>)
    requires SortedByY(a) && SortedByY(b)
    requires multiset(a) == multiset(b)
    requires DistinctY(a)
    ensures a == b
  {
    assert |b| == |a| by {
      assert |multiset(a)| == |multiset(b)|;
    }
    if a != [] {
      SortedPermutationsSameHead(a, b);
      MultisetTail(a);
      MultisetTail(b);
      forall p, q | p in a[1..] && q in a[1..] && p.y == q.y ensures p == q {
        assert p in a && q in a;
      }
      SortedPermutationsAgree(a[1..], b[1..]);
      assert a == [a[0]] + a[1..];
      assert b == [b[0]] + b[1..];
    }
  }

  /** Reordering points whose y values are distinct does not change the sort. */
  lemma SortByYIgnoresOrder(s: seq<Point>, t: seq<Point>)
    requires multiset(s) == multiset(t)
    requires DistinctY(s)
    ensures SortByY(s) == SortByY(t)
  {
    var a, b := SortByY(s), SortByY(t);
    forall p, q | p in a && q in a && p.y == q.y ensures p == q {
      assert p in multiset(a) && q in multiset(a);
      assert p in s && q in s;
    }
    SortedPermutationsAgree(a, b);
  }

  // ---------------------------------------------------------------------
  // decodeFromPoints

  /** The lower-cased key letter at `idx`, or nothing when `idx` is past the end of the key. */
  function LetterAt(key: string, idx: nat): (s: string)
    ensures |s| <= 1
  {
    if idx < |key| then [ToLower(key[idx])] else []
  }

  /** The letters of points already in decoding order. */
  function DecodeSorted(ps: seq<Point>, key: string): string
  {
    if ps == [] then []
    else DecodeSorted(ps[..|ps| - 1], key) + LetterAt(key, Nearest(|key|, ps[|ps| - 1].x))
  }

  /** What decodeFromPoints returns for `points` under `key`. */
  function Decoded(points: seq<Point>, key: string): string
  {
    if |points| == 0 then [] else DecodeSorted(SortByY(points), key)
  }

  lemma {:induction false} DecodeSortedEmptyKey(ps: seq<Point>, key: string)
    requires key == []
    ensures DecodeSorted(ps, key) == []
  {
    if ps != [] {
      DecodeSortedEmptyKey(ps[..|ps| - 1], key);
    }
  }

  lemma {:induction false} DecodeSortedLetters(ps: seq<Point>, key: string)
    requires key != []
    ensures |DecodeSorted(ps, key)| == |ps|
    ensures forall k :: 0 <= k < |ps| ==> DecodeSorted(ps, key)[k] == ToLower(key[Nearest(|key|, ps[k].x)])
  {
    if ps != [] {
      var init := ps[..|ps| - 1];
      DecodeSortedLetters(init, key);
      var last := LetterAt(key, Nearest(|key|, ps[|ps| - 1].x));
      assert last == [ToLower(key[Nearest(|key|, ps[|ps| - 1].x)])];
      assert DecodeSorted(ps, key) == DecodeSorted(init, key) + last;
      forall k | 0 <= k < |ps| - 1 ensures ps[k] == init[k] {
      }
    }
  }

  /** An empty key decodes every point list to the empty string. */
  lemma DecodedEmptyKey(points: seq<Point>)
    ensures Decoded(points, []) == []
  {
    if points != [] {
      DecodeSortedEmptyKey(SortByY(points), []);
    }
  }

  /**
   * With a non-empty key, one lower-case key letter per point: the k-th
   * letter is that of the column nearest to the k-th point in ascending y.
   */
  lemma DecodedLetters(points: seq<Point>, key: string)
    requires key != []
    ensures |Decoded(points, key)| == |points|
    ensures forall k :: 0 <= k < |points| ==>
      Decoded(points, key)[k] == ToLower(key[Nearest(|key|, SortByY(points)[k].x)])
  {
    DecodeSortedLetters(SortByY(points), key);
  }

  /** Points whose y values are distinct decode the same in any order. */
  lemma DecodedIgnoresOrder(s: seq<Point>, t: seq<Point>, key: string)
    requires multiset(s) == multiset(t)
    requires DistinctY(s)
    ensures Decoded(s, key) == Decoded(t, key)
  {
    SortByYIgnoresOrder(s, t);
    assert |s| == |multiset(s)| == |multiset(t)| == |t|;
  }

  /**
   * Round trip: points on columns `idxs` and consecutive rows decode to the
   * lower-cased key letters of those columns, whichever duplicate column
   * of a letter was used.
   */
  lemma DecodeColumnsRoundTrip(pts: seq<Point>, key: string, idxs: seq<nat>)
    requires |idxs| == |pts|
    requires forall k :: 0 <= k < |pts| ==> idxs[k] < |key| && pts[k] == Point(ColX(idxs[k]), RowY(k))
    ensures Decoded(pts, key) == LowerAll(seq(|pts|, k requires 0 <= k < |pts| => key[idxs[k]]))
  {
    var expected := LowerAll(seq(|pts|, k requires 0 <= k < |pts| => key[idxs[k]]));
    if pts != [] {
      forall i, j | 0 <= i < j < |pts| ensures pts[i].y <= pts[j].y {
        RowsIncrease(i, j);
      }
      SortByYOfSorted(pts);
      DecodedLetters(pts, key);
      forall k | 0 <= k < |pts| ensures Decoded(pts, key)[k] == expected[k] {
        NearestOfColumn(|key|, idxs[k]);
      }
    }
  }

  /** Decoding one more point of a queue appends that point's letter. */
  lemma DecodeSortedPrefix(q: seq<Point>, n: nat, key: string)
    requires n < |q|
    ensures DecodeSorted(q[..n + 1], key) == DecodeSorted(q[..n], key) + LetterAt(key, Nearest(|key|, q[n].x))
  {
    assert q[..n + 1][..n] == q[..n];
  }

  /** Decoding the whole sorted queue is decoding the points. */
  lemma DecodeSortedWhole(points: seq<Point>, key: string)
    ensures DecodeSorted(SortByY(points)[..|points|], key) == Decoded(points, key)
  {
    assert SortByY(points)[..|points|] == SortByY(points);
  }

  /** decodeFromPoints: sort by y, then append the nearest key letter of each point. */
  method DecodeFromPoints(points: seq<Point>, key: string) returns (out: string)
    ensures out == Decoded(points, key)
    ensures points == [] || key == [] ==> out == []
  {
    if |points| == 0 {
      return "";
    }
    var sorted := SortByY(points);
    out := "";
    for i := 0 to |sorted|
      invariant out == DecodeSorted(sorted[..i], key)
    {
      var p := sorted[i];
      var idx := NearestKeyIndex(key, p.x);
      DecodeSortedPrefix(sorted, i, key);
      out := out + LetterAt(key, idx);
    }
    DecodeSortedWhole(points, key);
    if key == [] {
      DecodedEmptyKey(points);
    }
  }
}
