/**
  Stage two of a history tick: the reconciled points are merged into the
  cylinder's rolling window. Points whose timestamp string is already in the
  window are skipped, the rest are appended, the whole is sorted by parsed
  instant and only the last `Capacity` points are kept.

  Deduplication compares timestamp STRINGS; ordering compares parsed
  INSTANTS. Two different strings may denote the same instant.
 */
module RollingWindow {
  import opened Wrappers
  import opened Readings

  /** The window keeps at most this many points (`.slice(-20)`). */
  const Capacity: nat := 20

  function Min(a: nat, b: nat): nat {
    if a <= b then a else b
  }

  /**
    The sort comparator `new Date(a.ts) - new Date(b.ts)`. When either side
    is NaN the difference is NaN, which the array sort treats as 0 (equal).
   */
  function Compare(parse: Parser, a: Point, b: Point): int {
    if parse(a.ts).Some? && parse(b.ts).Some? then parse(a.ts).value - parse(b.ts).value else 0
  }

  /** `a` may stand before `b` in a sorted window. */
  predicate NotAfter(parse: Parser, a: Point, b: Point) {
    Compare(parse, a, b) <= 0
  }

  /** The window is non-decreasing by parsed instant. */
  predicate Chronological(parse: Parser, w: seq<Point>) {
    forall i, j {:trigger NotAfter(parse, w[i], w[j])} :: 0 <= i < j < |w| ==> NotAfter(parse, w[i], w[j])
  }

  /**
    The new points whose timestamp string is not yet in the window, in order
    (`newDataForChart.filter(point => !existingTimestamps.has(point.ts))`).
   */
  function NewOnly(prev: seq<Point>, pts: seq<Point>): (r: seq<Point>)
    ensures forall p :: p in r <==> p in pts && p.ts !in Stamps(prev)
    ensures DistinctTs(pts) ==> DistinctTs(r)
  {
    if pts == [] then []
    else
      var rest := NewOnly(prev, pts[1..]);
      if pts[0].ts in Stamps(prev) then rest else [pts[0]] + rest
  }

  /**
    Inserts `x` into the sorted `t` in front of the first point that `x` is
    not after; `x` thus stays ahead of the points it ties with.
   */
  function Insert(parse: Parser, x: Point, t: seq<Point>): seq<Point> {
    if t == [] || NotAfter(parse, x, t[0]) then [x] + t
    else [t[0]] + Insert(parse, x, t[1..])
  }

  /**
    The array sort with the comparator above: a stable sort by parsed
    instant (points that tie keep their relative order).
   */
  function SortByInstant(parse: Parser, s: seq<Point>): seq<Point> {
    if s == [] then []
    else Insert(parse, s[0], SortByInstant(parse, s[1..]))
  }

  /** Insertion adds exactly the one point. */
  lemma {:induction false} InsertPermutes(parse: Parser, x: Point, t: seq<Point>)
    ensures multiset(Insert(parse, x, t)) == multiset(t) + multiset{x}
    ensures |Insert(parse, x, t)| == |t| + 1
  {
    if t != [] && !NotAfter(parse, x, t[0]) {
      InsertPermutes(parse, x, t[1..]);
      assert t == [t[0]] + t[1..];
    }
  }

  /** The sort is a permutation: it neither loses, adds nor duplicates points. */
  lemma {:induction false} SortPermutes(parse: Parser, s: seq<Point>)
    ensures multiset(SortByInstant(parse, s)) == multiset(s)
    ensures |SortByInstant(parse, s)| == |s|
  {
    if s != [] {
      SortPermutes(parse, s[1..]);
      InsertPermutes(parse, s[0], SortByInstant(parse, s[1..]));
      assert s == [s[0]] + s[1..];
    }
  }

  /** Between valid instants, "not after" is transitive. */
  lemma NotAfterTransitive(parse: Parser, a: Point, b: Point, c: Point)
    requires Parses(parse, a.ts) && Parses(parse, b.ts) && Parses(parse, c.ts)
    requires NotAfter(parse, a, b) && NotAfter(parse, b, c)
    ensures NotAfter(parse, a, c)
  {
  }

  /** A point not after any point of a sorted window may be put in front of it. */
  lemma PrependChronological(parse: Parser, y: Point, r: seq<Point>)
    requires Chronological(parse, r)
    requires forall z :: z in r ==> NotAfter(parse, y, z)
    ensures Chronological(parse, [y] + r)
  {
    var s := [y] + r;
    forall i, j | 0 <= i < j < |s| ensures NotAfter(parse, s[i], s[j]) {
      assert s[j] == r[j - 1];
      if i == 0 {
        assert r[j - 1] in r;
      } else {
        assert s[i] == r[i - 1];
      }
    }
  }

  /** A valid point not after the head of a sorted window is not after any of it. */
  lemma FrontChronological(parse: Parser, x: Point, t: seq<Point>)
    requires AllParse(parse, t) && Parses(parse, x.ts) && Chronological(parse, t)
    requires t == [] || NotAfter(parse, x, t[0])
    ensures Chronological(parse, [x] + t)
  {
    forall z | z in t ensures NotAfter(parse, x, z) {
      var j :| 0 <= j < |t| && t[j] == z;
      if j > 0 {
        NotAfterTransitive(parse, x, t[0], t[j]);
      }
    }
    PrependChronological(parse, x, t);
  }

  /** The head of a sorted window stays in front when a later point is inserted behind it. */
  lemma PastChronological(parse: Parser, x: Point, t: seq<Point>, r: seq<Point>)
    requires AllParse(parse, t) && Parses(parse, x.ts) && Chronological(parse, t)
    requires t != [] && !NotAfter(parse, x, t[0])
    requires multiset(r) == multiset(t[1..]) + multiset{x} && Chronological(parse, r)
    ensures Chronological(parse, [t[0]] + r)
  {
    ElementsOf(r, t[1..] + [x]);
    forall z | z in r ensures NotAfter(parse, t[0], z) {
      if z != x {
        var j :| 0 <= j < |t[1..]| && t[1..][j] == z;
        assert t[j + 1] == z;
      }
    }
    PrependChronological(parse, t[0], r);
  }

  /** Inserting a valid point into a sorted valid window keeps it sorted and valid. */
  lemma {:induction false} InsertChronological(parse: Parser, x: Point, t: seq<Point>)
    requires AllParse(parse, t) && Parses(parse, x.ts) && Chronological(parse, t)
    ensures AllParse(parse, Insert(parse, x, t)) && Chronological(parse, Insert(parse, x, t))
  {
    InsertPermutes(parse, x, t);
    ElementsOf(Insert(parse, x, t), t + [x]);
    if t == [] || NotAfter(parse, x, t[0]) {
      FrontChronological(parse, x, t);
    } else {
      SuffixFacts(parse, t, 1);
      InsertChronological(parse, x, t[1..]);
      InsertPermutes(parse, x, t[1..]);
      PastChronological(parse, x, t, Insert(parse, x, t[1..]));
    }
  }

  /** Inserting a point with a new timestamp string keeps the strings distinct. */
  lemma {:induction false} InsertDistinct(parse: Parser, x: Point, t: seq<Point>)
    requires DistinctTs(t) && x.ts !in Stamps(t)
    ensures DistinctTs(Insert(parse, x, t))
  {
    var r := Insert(parse, x, t);
    if t == [] || NotAfter(parse, x, t[0]) {
      assert r == [x] + t;
    } else {
      var r' := Insert(parse, x, t[1..]);
      assert t[0].ts !in Stamps(t[1..]) && x.ts != t[0].ts;
      assert x.ts !in Stamps(t[1..]);
      InsertDistinct(parse, x, t[1..]);
      InsertPermutes(parse, x, t[1..]);
      ElementsOf(r', t[1..] + [x]);
      PrependDistinct(t[0], r');
      assert r == [t[0]] + r';
    }
  }

  /** A point whose timestamp string is new may be put in front of a distinct window. */
  lemma PrependDistinct(y: Point, r: seq<Point>)
    requires DistinctTs(r) && y.ts !in Stamps(r)
    ensures DistinctTs([y] + r)
  {
    var s := [y] + r;
    forall i, j | 0 <= i < j < |s| ensures s[i].ts != s[j].ts {
      assert s[j] == r[j - 1];
      if i > 0 {
        assert s[i] == r[i - 1];
      }
    }
  }

  /** The sort of valid points is non-decreasing by instant. */
  lemma {:induction false} SortChronological(parse: Parser, s: seq<Point>)
    requires AllParse(parse, s)
    ensures AllParse(parse, SortByInstant(parse, s)) && Chronological(parse, SortByInstant(parse, s))
  {
    if s != [] {
      SortChronological(parse, s[1..]);
      InsertChronological(parse, s[0], SortByInstant(parse, s[1..]));
    }
  }

  /** Sorting keeps timestamp strings distinct. */
  lemma {:induction false} SortDistinct(parse: Parser, s: seq<Point>)
    requires DistinctTs(s)
    ensures DistinctTs(SortByInstant(parse, s))
  {
    if s != [] {
      var rest := SortByInstant(parse, s[1..]);
      SortDistinct(parse, s[1..]);
      SortPermutes(parse, s[1..]);
      ElementsOf(rest, s[1..]);
      assert s[0].ts !in Stamps(rest);
      InsertDistinct(parse, s[0], rest);
    }
  }

  /** The points of `s` whose timestamp parses to the instant `v`, in their order in `s`. */
  function KeyIs(parse: Parser, v: int, s: seq<Point>): seq<Point> {
    if s == [] then []
    else (if parse(s[0].ts) == Some(v) then [s[0]] else []) + KeyIs(parse, v, s[1..])
  }

  /** Concatenation is associative (stated apart, away from the facts about the filters). */
  lemma Associative(x: seq<Point>, y: seq<Point>, z: seq<Point>)
    ensures x + (y + z) == (x + y) + z
  {
  }

  /** Selecting the points at one instant distributes over concatenation. */
  lemma {:induction false} KeyIsAppend(parse: Parser, v: int, a: seq<Point>, b: seq<Point>)
    ensures KeyIs(parse, v, a + b) == KeyIs(parse, v, a) + KeyIs(parse, v, b)
  {
    if a != [] {
      var head := if parse(a[0].ts) == Some(v) then [a[0]] else [];
      assert (a + b)[0] == a[0] && (a + b)[1..] == a[1..] + b;
      assert KeyIs(parse, v, a + b) == head + KeyIs(parse, v, a[1..] + b);
      KeyIsAppend(parse, v, a[1..], b);
      Associative(head, KeyIs(parse, v, a[1..]), KeyIs(parse, v, b));
    } else {
      assert a + b == b;
    }
  }

  /**
    Insertion is stable: among the points at one instant, the inserted point
    comes first and the others keep their order.
   */
  lemma {:induction false} InsertStable(parse: Parser, v: int, x: Point, t: seq<Point>)
    ensures KeyIs(parse, v, Insert(parse, x, t))
         == (if parse(x.ts) == Some(v) then [x] else []) + KeyIs(parse, v, t)
  {
    if t == [] || NotAfter(parse, x, t[0]) {
      assert ([x] + t)[0] == x && ([x] + t)[1..] == t;
    } else {
      var r := Insert(parse, x, t[1..]);
      var head := if parse(t[0].ts) == Some(v) then [t[0]] else [];
      var own := if parse(x.ts) == Some(v) then [x] else [];
      InsertStable(parse, v, x, t[1..]);
      assert ([t[0]] + r)[0] == t[0] && ([t[0]] + r)[1..] == r;
      assert KeyIs(parse, v, [t[0]] + r) == head + KeyIs(parse, v, r);
      assert KeyIs(parse, v, t) == head + KeyIs(parse, v, t[1..]);
      assert own == [] || head == [];
    }
  }

  /**
    The sort is stable: the points at any one instant come out in the order
    they went in.
   */
  lemma {:induction false} SortStable(parse: Parser, v: int, s: seq<Point>)
    ensures KeyIs(parse, v, SortByInstant(parse, s)) == KeyIs(parse, v, s)
  {
    if s != [] {
      SortStable(parse, v, s[1..]);
      InsertStable(parse, v, s[0], SortByInstant(parse, s[1..]));
    }
  }

  /**
    The next window (the `setData` updater): the new points not yet in the
    window are appended, the whole is sorted and the last `Capacity` kept.
   */
  function Merge(parse: Parser, prev: seq<Point>, pts: seq<Point>): (w: seq<Point>)
    ensures |w| <= Capacity
    ensures forall p :: p in w ==> p in prev || p in pts
  {
    var all := prev + NewOnly(prev, pts);
    var sorted := SortByInstant(parse, all);
    SortPermutes(parse, all);
    ElementsOf(sorted, all);
    SuffixFacts(parse, sorted, |sorted| - Min(|sorted|, Capacity));
    sorted[|sorted| - Min(|sorted|, Capacity)..]
  }

  /** The merged window is non-decreasing by instant, when every timestamp parses. */
  lemma MergeChronological(parse: Parser, prev: seq<Point>, pts: seq<Point>)
    requires AllParse(parse, prev) && AllParse(parse, pts)
    ensures AllParse(parse, Merge(parse, prev, pts)) && Chronological(parse, Merge(parse, prev, pts))
  {
    var all := prev + NewOnly(prev, pts);
    var sorted := SortByInstant(parse, all);
    CombinedParse(parse, prev, pts);
    SortChronological(parse, all);
    SuffixFacts(parse, sorted, |sorted| - Min(|sorted|, Capacity));
  }

  /**
    The merged window has at most one point per timestamp string, when the
    old window and the new points each have.
   */
  lemma MergeDistinct(parse: Parser, prev: seq<Point>, pts: seq<Point>)
    requires DistinctTs(prev) && DistinctTs(pts)
    ensures DistinctTs(Merge(parse, prev, pts))
  {
    var all := prev + NewOnly(prev, pts);
    var sorted := SortByInstant(parse, all);
    CombinedDistinct(prev, pts);
    SortDistinct(parse, all);
    SuffixFacts(parse, sorted, |sorted| - Min(|sorted|, Capacity));
  }

  /**
    A timestamp string already in the window is never added again: a merged
    point stamped like an old one IS that old point, its position unchanged.
   */
  lemma MergeKeepsExisting(parse: Parser, prev: seq<Point>, pts: seq<Point>, p: Point, q: Point)
    requires DistinctTs(prev)
    requires p in Merge(parse, prev, pts) && q in prev && p.ts == q.ts
    ensures p == q
  {
    var all := prev + NewOnly(prev, pts);
    var sorted := SortByInstant(parse, all);
    SortPermutes(parse, all);
    ElementsOf(sorted, all);
    SuffixFacts(parse, sorted, |sorted| - Min(|sorted|, Capacity));
    assert p in all;
    if p !in NewOnly(prev, pts) {
      var i :| 0 <= i < |prev| && prev[i] == p;
      var j :| 0 <= j < |prev| && prev[j] == q;
      assert i == j;
    }
  }

  /**
    Tied points keep their order through a merge: the merged points at one
    instant are the last of the old window's points at that instant followed
    by the new ones, in that order.
   */
  lemma MergeStable(parse: Parser, v: int, prev: seq<Point>, pts: seq<Point>)
    ensures var tied := KeyIs(parse, v, prev) + KeyIs(parse, v, NewOnly(prev, pts));
      var kept := KeyIs(parse, v, Merge(parse, prev, pts));
      |kept| <= |tied| && kept == tied[|tied| - |kept|..]
  {
    var all := prev + NewOnly(prev, pts);
    var sorted := SortByInstant(parse, all);
    var k := |sorted| - Min(|sorted|, Capacity);
    assert Merge(parse, prev, pts) == sorted[k..];
    assert sorted == sorted[..k] + sorted[k..];
    KeyIsAppend(parse, v, sorted[..k], sorted[k..]);
    SortStable(parse, v, all);
    KeyIsAppend(parse, v, prev, NewOnly(prev, pts));
  }

  /** A suffix of a window keeps its elements' validity, order and distinctness. */
  lemma SuffixFacts(parse: Parser, s: seq<Point>, k: nat)
    requires k <= |s|
    ensures forall p :: p in s[k..] ==> p in s
    ensures AllParse(parse, s) ==> AllParse(parse, s[k..])
    ensures Chronological(parse, s) ==> Chronological(parse, s[k..])
    ensures DistinctTs(s) ==> DistinctTs(s[k..])
  {
    var w := s[k..];
    assert forall i :: 0 <= i < |w| ==> w[i] == s[k + i];
  }

  /** The old window followed by its unseen new points repeats no timestamp string. */
  lemma CombinedDistinct(prev: seq<Point>, pts: seq<Point>)
    requires DistinctTs(prev) && DistinctTs(pts)
    ensures DistinctTs(prev + NewOnly(prev, pts))
  {
    var unseen := NewOnly(prev, pts);
    var all := prev + unseen;
    forall i, j | 0 <= i < j < |all| ensures all[i].ts != all[j].ts {
      if j >= |prev| && i < |prev| {
        assert all[j] in unseen;
      }
    }
  }

  /** The old window followed by its unseen new points has only valid timestamps. */
  lemma CombinedParse(parse: Parser, prev: seq<Point>, pts: seq<Point>)
    requires AllParse(parse, prev) && AllParse(parse, pts)
    ensures AllParse(parse, prev + NewOnly(prev, pts))
  {
    var unseen := NewOnly(prev, pts);
    var all := prev + unseen;
    forall i | 0 <= i < |all| ensures Parses(parse, all[i].ts) {
      if i >= |prev| { assert all[i] in unseen; }
    }
  }

  /** Every new point's timestamp string is in the old window followed by its unseen new points. */
  lemma CombinedCovers(prev: seq<Point>, pts: seq<Point>)
    ensures forall p :: p in pts ==> p.ts in Stamps(prev + NewOnly(prev, pts))
  {
    var all := prev + NewOnly(prev, pts);
    forall p | p in pts ensures p.ts in Stamps(all) {
      if p.ts in Stamps(prev) {
        var q :| q in prev && q.ts == p.ts;
        assert q in all;
      } else {
        assert p in all;
      }
    }
  }

  /** Sequences with the same elements have the same timestamp strings. */
  lemma ElementsOf(a: seq<Point>, b: seq<Point>)
    requires multiset(a) == multiset(b)
    ensures forall p :: p in a <==> p in b
    ensures Stamps(a) == Stamps(b)
  {
    assert forall p :: p in a <==> p in multiset(a);
    assert forall p :: p in b <==> p in multiset(b);
  }

  /**
    Eviction drops the earliest points: the window keeps as many points as
    fit, all taken from the concatenation of the old window and the unseen
    new points, and every point left out is not after any point kept.
   */
  lemma MergeKeepsLatest(parse: Parser, prev: seq<Point>, pts: seq<Point>)
    requires AllParse(parse, prev) && AllParse(parse, pts)
    ensures var all := prev + NewOnly(prev, pts);
      var w := Merge(parse, prev, pts);
      && |w| == Min(|all|, Capacity)
      && multiset(w) <= multiset(all)
      && forall d, k :: d in multiset(all) - multiset(w) && k in w ==> NotAfter(parse, d, k)
  {
    var all := prev + NewOnly(prev, pts);
    var sorted := SortByInstant(parse, all);
    var k0 := |sorted| - Min(|sorted|, Capacity);
    assert Merge(parse, prev, pts) == sorted[k0..];
    SortPermutes(parse, all);
    CombinedParse(parse, prev, pts);
    SortChronological(parse, all);
    SplitSorted(parse, sorted, k0);
  }

  /** Cutting a sorted sequence in two leaves nothing in front that is after anything behind. */
  lemma SplitSorted(parse: Parser, s: seq<Point>, k: nat)
    requires Chronological(parse, s) && k <= |s|
    ensures multiset(s[k..]) <= multiset(s)
    ensures multiset(s) - multiset(s[k..]) == multiset(s[..k])
    ensures forall d, q :: d in multiset(s[..k]) && q in s[k..] ==> NotAfter(parse, d, q)
  {
    assert s == s[..k] + s[k..];
    assert multiset(s) == multiset(s[..k]) + multiset(s[k..]);
    forall d, q | d in multiset(s[..k]) && q in s[k..] ensures NotAfter(parse, d, q) {
      assert d in s[..k];
      var i :| 0 <= i < k && s[i] == d;
      var j :| 0 <= j < |s| - k && s[k..][j] == q;
      assert s[k + j] == q;
    }
  }

  /** Sorting a window that is already in order changes nothing (the sort is stable). */
  lemma {:induction false} SortOfChronological(parse: Parser, s: seq<Point>)
    requires Chronological(parse, s)
    ensures SortByInstant(parse, s) == s
  {
    if s != [] {
      SuffixFacts(parse, s, 1);
      SortOfChronological(parse, s[1..]);
      assert |s| > 1 ==> NotAfter(parse, s[0], s[1..][0]);
      assert [s[0]] + s[1..] == s;
    }
  }

  /** When every new point is stamped with a string not in the window, none is skipped. */
  lemma {:induction false} NewOnlyAllUnseen(prev: seq<Point>, pts: seq<Point>)
    requires forall p :: p in pts ==> p.ts !in Stamps(prev)
    ensures NewOnly(prev, pts) == pts
  {
    if pts != [] {
      forall p | p in pts[1..] ensures p.ts !in Stamps(prev) {
        var i :| 0 <= i < |pts[1..]| && pts[1..][i] == p;
        assert pts[i + 1] == p;
      }
      assert pts[0] in pts;
      NewOnlyAllUnseen(prev, pts[1..]);
      assert NewOnly(prev, pts) == [pts[0]] + pts[1..];
    }
  }

  /** When every new point is stamped with a string already in the window, all are skipped. */
  lemma NewOnlyAllSeen(prev: seq<Point>, pts: seq<Point>)
    requires forall p :: p in pts ==> p.ts in Stamps(prev)
    ensures NewOnly(prev, pts) == []
  {
  }

  /**
    Re-observing timestamps already in a sorted, full-or-smaller window
    neither duplicates nor reorders anything: the window is unchanged.
   */
  lemma MergeKnownIsIdentity(parse: Parser, prev: seq<Point>, pts: seq<Point>)
    requires Chronological(parse, prev) && |prev| <= Capacity
    requires forall p :: p in pts ==> p.ts in Stamps(prev)
    ensures Merge(parse, prev, pts) == prev
  {
    NewOnlyAllSeen(prev, pts);
    assert prev + [] == prev;
    SortOfChronological(parse, prev);
  }

  /**
    Merging the same points a second time changes nothing, provided the
    first merge had room for all of them (nothing was evicted).
   */
  lemma MergeTwiceWithoutEviction(parse: Parser, prev: seq<Point>, pts: seq<Point>)
    requires AllParse(parse, prev) && AllParse(parse, pts)
    requires |prev| + |NewOnly(prev, pts)| <= Capacity
    ensures Merge(parse, Merge(parse, prev, pts), pts) == Merge(parse, prev, pts)
  {
    var all := prev + NewOnly(prev, pts);
    var w := Merge(parse, prev, pts);
    SortPermutes(parse, all);
    assert w == SortByInstant(parse, all);
    ElementsOf(w, all);
    MergeChronological(parse, prev, pts);
    CombinedCovers(prev, pts);
    MergeKnownIsIdentity(parse, w, pts);
  }

  /**
    A point with an unseen timestamp, not before anything in a sorted
    window, is appended at the end; when the window is full its earliest
    point is evicted and the size stays at `Capacity`.
   */
  lemma MergeLatestPoint(parse: Parser, prev: seq<Point>, x: Point)
    requires Chronological(parse, prev) && |prev| <= Capacity
    requires x.ts !in Stamps(prev)
    requires forall p :: p in prev ==> NotAfter(parse, p, x)
    ensures Merge(parse, prev, [x]) == if |prev| < Capacity then prev + [x] else prev[1..] + [x]
  {
    NewOnlyAllUnseen(prev, [x]);
    var all := prev + [x];
    AppendLatestChronological(parse, prev, x);
    SortOfChronological(parse, all);
    if |prev| == Capacity {
      assert all[1..] == prev[1..] + [x];
    }
  }

  /** Appending a point not before anything keeps a window sorted. */
  lemma AppendLatestChronological(parse: Parser, prev: seq<Point>, x: Point)
    requires Chronological(parse, prev)
    requires forall p :: p in prev ==> NotAfter(parse, p, x)
    ensures Chronological(parse, prev + [x])
  {
    var all := prev + [x];
    forall i, j | 0 <= i < j < |all| ensures NotAfter(parse, all[i], all[j]) {
      assert all[i] == prev[i];
      if j == |prev| { assert prev[i] in prev; } else { assert all[j] == prev[j]; }
    }
  }

  /** Dropping the head of a sequence built by prepending gives back the tail. */
  lemma DropFirst(x: Point, t: seq<Point>)
    ensures ([x] + t)[1..] == t
  {
  }

  /** A point not after the first of `t` is inserted in front. */
  lemma InsertFront(parse: Parser, x: Point, t: seq<Point>)
    requires t == [] || NotAfter(parse, x, t[0])
    ensures Insert(parse, x, t) == [x] + t
  {
  }

  /** A point after `y` is inserted behind it. */
  lemma InsertPast(parse: Parser, x: Point, y: Point, t: seq<Point>)
    requires !NotAfter(parse, x, y)
    ensures Insert(parse, x, [y] + t) == [y] + Insert(parse, x, t)
  {
    assert ([y] + t)[0] == y && ([y] + t)[1..] == t;
  }

  /** A point strictly before every point of a sorted window is sorted to the front. */
  lemma {:induction false} SortAppendEarliest(parse: Parser, s: seq<Point>, e: Point)
    requires Chronological(parse, s)
    requires forall y :: y in s ==> Compare(parse, e, y) < 0
    ensures SortByInstant(parse, s + [e]) == [e] + s
  {
    if s == [] {
      assert [] + [e] == [e];
    } else {
      var s' := s + [e];
      assert s'[0] == s[0] && s'[1..] == s[1..] + [e];
      SuffixFacts(parse, s, 1);
      SortAppendEarliest(parse, s[1..], e);
      assert Compare(parse, e, s[0]) < 0;
      InsertPast(parse, s[0], e, s[1..]);
      assert s[1..] != [] ==> NotAfter(parse, s[0], s[1..][0]);
      InsertFront(parse, s[0], s[1..]);
      assert [s[0]] + s[1..] == s;
    }
  }

  /** From an empty window, a sorted batch of points is kept up to its last `Capacity`. */
  lemma MergeIntoEmpty(parse: Parser, pts: seq<Point>)
    requires Chronological(parse, pts)
    ensures Merge(parse, [], pts) == pts[|pts| - Min(|pts|, Capacity)..]
  {
    NewOnlyAllUnseen([], pts);
    assert [] + pts == pts;
    SortOfChronological(parse, pts);
  }

  /**
    Merging is not idempotent once points tie on their instant: two points
    with different timestamp strings for the same instant, the earlier of
    them evicted by the first merge, trade places on a second merge of the
    same points, because the re-added point sorts behind the one it ties with.
   */
  lemma MergeNotIdempotent(parse: Parser, e: Point, c: Point, xs: seq<Point>)
    requires e.ts != c.ts && Parses(parse, e.ts) && parse(c.ts) == parse(e.ts)
    requires |xs| == Capacity - 1 && Chronological(parse, xs)
    requires forall x :: x in xs ==> Compare(parse, e, x) < 0
    requires e.ts !in Stamps(xs)
    ensures Merge(parse, [], [e, c] + xs) == [c] + xs
    ensures Merge(parse, [c] + xs, [e, c] + xs) == [e] + xs
    ensures [e] + xs != [c] + xs
  {
    FirstMergeOfTie(parse, e, c, xs);
    SecondMergeOfTie(parse, e, c, xs);
    assert ([e] + xs)[0] != ([c] + xs)[0];
  }

  /** The first merge of the tie example keeps the later-listed of the tied points. */
  lemma FirstMergeOfTie(parse: Parser, e: Point, c: Point, xs: seq<Point>)
    requires Parses(parse, e.ts) && parse(c.ts) == parse(e.ts)
    requires |xs| == Capacity - 1 && Chronological(parse, xs)
    requires forall x :: x in xs ==> Compare(parse, e, x) < 0
    ensures Merge(parse, [], [e, c] + xs) == [c] + xs
  {
    var pts := [e, c] + xs;
    TieChronological(parse, e, c, xs);
    MergeIntoEmpty(parse, pts);
    assert |pts| - Min(|pts|, Capacity) == 1;
    DropFirst(e, [c] + xs);
  }

  /** The second merge of the tie example brings back the evicted point and evicts its tie. */
  lemma SecondMergeOfTie(parse: Parser, e: Point, c: Point, xs: seq<Point>)
    requires e.ts != c.ts && Parses(parse, e.ts) && parse(c.ts) == parse(e.ts)
    requires |xs| == Capacity - 1 && Chronological(parse, xs)
    requires forall x :: x in xs ==> Compare(parse, e, x) < 0
    requires e.ts !in Stamps(xs)
    ensures Merge(parse, [c] + xs, [e, c] + xs) == [e] + xs
  {
    var pts := [e, c] + xs;
    var once := [c] + xs;
    SecondMergeAdds(e, c, xs);
    assert once + NewOnly(once, pts) == [c] + xs + [e];
    SortTieBehind(parse, e, c, xs);
    var sorted := [c] + ([e] + xs);
    assert Merge(parse, once, pts) == sorted[1..];
    DropFirst(c, [e] + xs);
  }

  /** On the second merge of the tie example, the re-added point sorts behind its tie. */
  lemma SortTieBehind(parse: Parser, e: Point, c: Point, xs: seq<Point>)
    requires Parses(parse, e.ts) && parse(c.ts) == parse(e.ts) && Chronological(parse, xs)
    requires forall x :: x in xs ==> Compare(parse, e, x) < 0
    ensures SortByInstant(parse, [c] + xs + [e]) == [c] + ([e] + xs)
  {
    var all := [c] + xs + [e];
    assert all[0] == c && all[1..] == xs + [e];
    SortAppendEarliest(parse, xs, e);
    InsertFront(parse, c, [e] + xs);
  }

  /** The batch of the tie example is sorted. */
  lemma TieChronological(parse: Parser, e: Point, c: Point, xs: seq<Point>)
    requires Parses(parse, e.ts) && parse(c.ts) == parse(e.ts) && Chronological(parse, xs)
    requires forall x :: x in xs ==> Compare(parse, e, x) < 0
    ensures Chronological(parse, [e, c] + xs)
  {
    var pts := [e, c] + xs;
    forall i, j | 0 <= i < j < |pts| ensures NotAfter(parse, pts[i], pts[j]) {
      if i >= 2 {
        assert pts[i] == xs[i - 2] && pts[j] == xs[j - 2];
      } else if j >= 2 {
        assert pts[j] == xs[j - 2];
        assert pts[j] in xs;
      }
    }
  }

  /** On the second merge of the tie example, only the evicted point is unseen. */
  lemma SecondMergeAdds(e: Point, c: Point, xs: seq<Point>)
    requires e.ts != c.ts && e.ts !in Stamps(xs)
    ensures NewOnly([c] + xs, [e, c] + xs) == [e]
  {
    var once := [c] + xs;
    var pts := [e, c] + xs;
    StampsPrepend(c, xs);
    assert e.ts !in Stamps(once);
    NewOnlySelf(once);
    assert pts[0] == e && pts[1..] == once;
    assert NewOnly(once, pts) == [e] + NewOnly(once, once);
  }

  /** The timestamp strings of `[y] + r` are those of `r` and `y`'s. */
  lemma StampsPrepend(y: Point, r: seq<Point>)
    ensures Stamps([y] + r) == {y.ts} + Stamps(r)
  {
    var s := [y] + r;
    forall t | t in Stamps(s) ensures t in {y.ts} + Stamps(r) {
      var i :| 0 <= i < |s| && s[i].ts == t;
      if i > 0 { assert s[i] == r[i - 1]; }
    }
    forall t | t in Stamps(r) ensures t in Stamps(s) {
      var i :| 0 <= i < |r| && r[i].ts == t;
      assert s[i + 1] == r[i];
    }
    assert s[0] == y;
  }

  /** Merging a window's own points adds nothing. */
  lemma NewOnlySelf(prev: seq<Point>)
    ensures NewOnly(prev, prev) == []
  {
    forall p | p in prev ensures p.ts in Stamps(prev) {
      var i :| 0 <= i < |prev| && prev[i] == p;
    }
    NewOnlyAllSeen(prev, prev);
  }
}
