/**
 A set of numbers inside a ground range, kept as a map from the first number of
 each range to the number after its last.
 */
module RangeMask {
  import opened Options

  type Ranges = map<int, int>

  /** Ranges are non-empty, and there is a gap between any two of them. */
  ghost predicate Tidy(m: Ranges) {
    && (forall k :: k in m ==> k < m[k])
    && (forall j, k :: j in m && k in m && j < k ==> m[j] < k)
  }

  ghost predicate Covers(m: Ranges, k: int, x: int) {
    k in m && k <= x < m[k]
  }

  ghost predicate Has(m: Ranges, x: int) {
    exists k :: Covers(m, k, x)
  }

  ghost predicate Within(m: Ranges, lo: int, hi: int) {
    forall k :: k in m ==> lo <= k && m[k] <= hi
  }

  // ---- the ranges of a set are determined by it ----

  ghost predicate SameSet(a: Ranges, b: Ranges) {
    forall x :: Has(a, x) <==> Has(b, x)
  }

  lemma {:induction false} Gaps(m: Ranges, k: int)
    requires Tidy(m) && k in m
    ensures Has(m, k) && !Has(m, k - 1) && !Has(m, m[k])
  {
    assert Covers(m, k, k);
    forall j
      ensures !Covers(m, j, k - 1) && !Covers(m, j, m[k])
    {
      assert j in m && j < k ==> m[j] < k;
      assert j in m && k < j ==> m[k] < j;
    }
  }

  lemma {:induction false} NotLonger(m: Ranges, k: int, end: int)
    requires k in m && k < end && !Has(m, end)
    ensures m[k] <= end
  {
    assert !Covers(m, k, end);
  }

  /** Where a tidy map has a range, every tidy map of the same set has the same range. */
  lemma {:induction false} SameRange(a: Ranges, b: Ranges, k: int)
    requires Tidy(a) && Tidy(b) && SameSet(a, b) && k in a
    ensures k in b && b[k] == a[k]
  {
    Gaps(a, k);
    assert Has(b, k) && !Has(b, k - 1) && !Has(b, a[k]);
    var j :| Covers(b, j, k);
    assert !Covers(b, j, k - 1);
    Gaps(b, k);
    NotLonger(b, k, a[k]);
    NotLonger(a, k, b[k]);
  }

  lemma {:induction false} TidyIsUnique(a: Ranges, b: Ranges)
    requires Tidy(a) && Tidy(b) && SameSet(a, b)
    ensures a == b
  {
    forall k | k in a ensures k in b && b[k] == a[k] { SameRange(a, b, k); }
    forall k | k in b ensures k in a { SameRange(b, a, k); }
  }

  // ---- the steps of a union ----

  /** A range with a gap on both sides is added. */
  lemma {:induction false} Added(m: Ranges, i: int, hi: int)
    requires Tidy(m) && i < hi && forall k :: k in m ==> m[k] < i || k > hi
    ensures Tidy(m[i := hi]) && forall x :: Has(m[i := hi], x) <==> Has(m, x) || i <= x < hi
  {
    var r := m[i := hi];
    forall x
      ensures Has(r, x) <==> Has(m, x) || i <= x < hi
    {
      assert Covers(r, i, x) <==> i <= x < hi;
      if Has(m, x) {
        var k :| Covers(m, k, x);
        assert k != i && Covers(r, k, x);
      }
      if Has(r, x) && !(i <= x < hi) {
        var k :| Covers(r, k, x);
        assert Covers(m, k, x);
      }
    }
  }

  /** A range is prolonged up to a number below the next one. */
  lemma {:induction false} Prolonged(m: Ranges, it: int, hi: int)
    requires Tidy(m) && it in m && m[it] <= hi && forall k :: k in m && k > it ==> k > hi
    ensures Tidy(m[it := hi]) && forall x :: Has(m[it := hi], x) <==> Has(m, x) || m[it] <= x < hi
  {
    var r := m[it := hi];
    forall x
      ensures Has(r, x) <==> Has(m, x) || m[it] <= x < hi
    {
      assert Covers(r, it, x) <==> Covers(m, it, x) || m[it] <= x < hi;
      forall k | k != it ensures Covers(m, k, x) <==> Covers(r, k, x) {}
    }
  }

  /** A range is begun earlier, above the end of the one before. */
  lemma {:induction false} BegunEarlier(m: Ranges, i: int, after: int)
    requires Tidy(m) && after in m && i < after && forall k :: k in m && k < after ==> m[k] < i
    ensures var r := m[i := m[after]] - {after};
      Tidy(r) && forall x :: Has(r, x) <==> Has(m, x) || i <= x < after
  {
    var r := m[i := m[after]] - {after};
    assert i !in m;
    forall x
      ensures Has(r, x) <==> Has(m, x) || i <= x < after
    {
      assert Covers(r, i, x) <==> Covers(m, after, x) || i <= x < after;
      forall k | k != i && k != after ensures Covers(m, k, x) <==> Covers(r, k, x) {}
    }
  }

  /** Two neighbours are joined over the gap between them. */
  lemma {:induction false} Joined(m: Ranges, it: int, after: int)
    requires Tidy(m) && it in m && after in m && it < after && forall k :: k in m ==> k <= it || k >= after
    ensures var r := m[it := m[after]] - {after};
      Tidy(r) && forall x :: Has(r, x) <==> Has(m, x) || m[it] <= x < after
  {
    var r := m[it := m[after]] - {after};
    forall x
      ensures Has(r, x) <==> Has(m, x) || m[it] <= x < after
    {
      assert Covers(r, it, x) <==> Covers(m, it, x) || Covers(m, after, x) || m[it] <= x < after;
      forall k | k != it && k != after ensures Covers(m, k, x) <==> Covers(r, k, x) {}
    }
  }

  // ---- order of the ranges ----

  /** The first range that starts after a number. */
  ghost predicate IsAfter(m: Ranges, t: int, r: Option<int>) {
    match r
    case None => forall k :: k in m ==> k <= t
    case Some(a) => a in m && a > t && forall k :: k in m && k > t ==> k >= a
  }

  /** The last range that starts at or before a number. */
  ghost predicate IsBefore(m: Ranges, t: int, r: Option<int>) {
    match r
    case None => forall k :: k in m ==> k > t
    case Some(b) => b in m && b <= t && forall k :: k in m && k <= t ==> k <= b
  }

  lemma {:induction false} SomeKey(s: set<int>)
    requires s != {}
    ensures exists k :: k in s
  {
    assert (forall k :: k !in s) ==> s == {};
  }

  method UpperBound(m: Ranges, t: int) returns (r: Option<int>)
    ensures IsAfter(m, t, r)
  {
    r := None;
    var rest := m.Keys;
    while rest != {}
      invariant rest <= m.Keys
      invariant r.None? ==> forall k :: k in m && k !in rest ==> k <= t
      invariant r.Some? ==> r.value in m && r.value > t && forall k :: k in m && k !in rest && k > t ==> k >= r.value
      decreases |rest|
    {
      SomeKey(rest);
      var k :| k in rest;
      rest := rest - {k};
      if k > t && (r.None? || k < r.value) { r := Some(k); }
    }
  }

  method LastBefore(m: Ranges, t: int) returns (r: Option<int>)
    ensures IsBefore(m, t, r)
  {
    r := None;
    var rest := m.Keys;
    while rest != {}
      invariant rest <= m.Keys
      invariant r.None? ==> forall k :: k in m && k !in rest ==> k > t
      invariant r.Some? ==> r.value in m && r.value <= t && forall k :: k in m && k !in rest && k <= t ==> k <= r.value
      decreases |rest|
    {
      SomeKey(rest);
      var k :| k in rest;
      rest := rest - {k};
      if k <= t && (r.None? || k > r.value) { r := Some(k); }
    }
  }

  // ---- counting ----

  function Interval(lo: int, hi: int): (s: set<int>) {
    set x: int {:trigger Inside(lo, hi, x)} | lo <= x < hi && Inside(lo, hi, x)
  }

  predicate Inside(lo: int, hi: int, x: int) { lo <= x < hi }

  lemma {:induction false} IntervalSize(lo: int, hi: int)
    requires lo <= hi
    ensures |Interval(lo, hi)| == hi - lo
    decreases hi - lo
  {
    if lo < hi {
      IntervalSize(lo, hi - 1);
      assert Interval(lo, hi) == Interval(lo, hi - 1) + {hi - 1};
    }
  }

  /** The numbers of a map of ranges. */
  ghost function Elements(m: Ranges): set<int> {
    set k, x | k in m && x in Interval(k, m[k]) && Covers(m, k, x) :: x
  }

  lemma ElementsAre(m: Ranges, x: int)
    ensures x in Elements(m) <==> Has(m, x)
  {
  }

  lemma {:induction false} ElementsAdded(m: Ranges, k: int, hi: int)
    requires Tidy(m[k := hi]) && k !in m
    ensures Elements(m[k := hi]) == Elements(m) + Interval(k, hi) && Elements(m) !! Interval(k, hi)
    ensures |Elements(m[k := hi])| == |Elements(m)| + (hi - k)
  {
    var a, b, c := Elements(m[k := hi]), Elements(m), Interval(k, hi);
    assert k < m[k := hi][k];
    IntervalSize(k, hi);
    hide *;
    forall x: int
      ensures (x in a <==> x in b || x in c) && !(x in b && x in c)
    {
      AddedAt(m, k, hi, x);
      ElementsAre(m[k := hi], x);
      ElementsAre(m, x);
      IntervalIs(k, hi, x);
    }
    DisjointUnion(a, b, c);
  }

  lemma {:induction false} IntervalIs(lo: int, hi: int, x: int)
    ensures x in Interval(lo, hi) <==> lo <= x < hi
  {
    assert Inside(lo, hi, x) <==> lo <= x < hi;
  }

  lemma {:induction false} DisjointUnion(a: set<int>, b: set<int>, c: set<int>)
    requires forall x: int :: (x in a <==> x in b || x in c) && !(x in b && x in c)
    ensures a == b + c && b !! c && |a| == |b| + |c|
  {
    assert forall x: int :: x in a ==> x in b + c;
    assert forall x: int :: x in b + c ==> x in a;
    assert forall x: int :: !(x in b && x in c);
    assert b !! c && a == b + c;
  }

  lemma {:induction false} AddedAt(m: Ranges, k: int, hi: int, x: int)
    requires Tidy(m[k := hi]) && k !in m
    ensures Has(m[k := hi], x) <==> Has(m, x) || k <= x < hi
    ensures !(Has(m, x) && k <= x < hi)
  {
    var r := m[k := hi];
    assert Covers(r, k, x) <==> k <= x < hi;
    forall j | j != k
      ensures Covers(m, j, x) <==> Covers(r, j, x)
      ensures !(Covers(m, j, x) && k <= x < hi)
    {
      assert j in m && j < k ==> r[j] < k;
      assert j in m && k < j ==> r[k] < j;
    }
  }

  // ---- walks over the ranges in ascending order ----

  /** The ranges that start before the next one to come; the walk has reached `last`. */
  ghost predicate Reached(m: Ranges, next: Option<int>, last: int) {
    && (forall k :: k in m && (next.None? || k < next.value) ==> m[k] <= last)
    && (next.Some? ==> next.value in m && last <= next.value && forall k :: k in m && k < next.value ==> m[k] < next.value)
  }

  lemma ReachedNext(m: Ranges, k: int, next: Option<int>)
    requires Tidy(m) && k in m && IsAfter(m, k, next)
    ensures Reached(m, next, m[k])
  {
  }

  /** Between the end of the walk and the next range there is nothing. */
  lemma {:induction false} NothingBetween(m: Ranges, next: Option<int>, last: int, x: int)
    requires Tidy(m) && Reached(m, next, last) && last <= x && (next.Some? ==> x < next.value)
    ensures !Has(m, x)
  {
    forall k ensures !Covers(m, k, x) {}
  }

  /** The complement inside [lo, hi): the gaps before, between and after the ranges. */
  method Complement(m: Ranges, lo: int, hi: int) returns (r: Ranges)
    requires Tidy(m) && Within(m, lo, hi) && lo <= hi
    ensures Tidy(r) && Within(r, lo, hi)
    ensures forall x :: Has(r, x) <==> lo <= x < hi && !Has(m, x)
  {
    r := map[];
    var last := lo;
    var next := UpperBound(m, lo - 1);
    while next.Some?
      invariant Reached(m, next, last) && lo <= last <= hi
      invariant Tidy(r) && forall k :: k in r ==> lo <= k && r[k] < last
      invariant forall x :: Has(r, x) <==> lo <= x < last && !Has(m, x)
      decreases if next.Some? then hi - next.value else -1
    {
      var k := next.value;
      GapFilled(m, r, lo, last, k);
      if k != last { r := r[last := k]; }
      last := m[k];
      next := UpperBound(m, k);
      ReachedNext(m, k, next);
    }
    LastGap(m, r, lo, last, hi);
    if last != hi { r := r[last := hi]; }
  }

  lemma {:induction false} GapFilled(m: Ranges, r: Ranges, lo: int, last: int, k: int)
    requires Tidy(m) && Reached(m, Some(k), last) && lo <= last
    requires Tidy(r) && forall j :: j in r ==> lo <= j && r[j] < last
    requires forall x :: Has(r, x) <==> lo <= x < last && !Has(m, x)
    ensures var r' := if k != last then r[last := k] else r;
      && Tidy(r') && (forall j :: j in r' ==> lo <= j && r'[j] < m[k])
      && forall x :: Has(r', x) <==> lo <= x < m[k] && !Has(m, x)
  {
    var r' := if k != last then r[last := k] else r;
    if k != last { Added(r, last, k); }
    forall x
      ensures Has(r', x) <==> lo <= x < m[k] && !Has(m, x)
    {
      assert Covers(m, k, x) <==> k <= x < m[k];
      if last <= x < k { NothingBetween(m, Some(k), last, x); }
    }
  }

  lemma {:induction false} LastGap(m: Ranges, r: Ranges, lo: int, last: int, hi: int)
    requires Tidy(m) && Reached(m, None, last) && lo <= last <= hi
    requires Tidy(r) && forall j :: j in r ==> lo <= j && r[j] < last
    requires forall x :: Has(r, x) <==> lo <= x < last && !Has(m, x)
    ensures var r' := if last != hi then r[last := hi] else r;
      Tidy(r') && Within(r', lo, hi) && forall x :: Has(r', x) <==> lo <= x < hi && !Has(m, x)
  {
    var r' := if last != hi then r[last := hi] else r;
    if last != hi { Added(r, last, hi); }
    forall x
      ensures Has(r', x) <==> lo <= x < hi && !Has(m, x)
    {
      if last <= x { NothingBetween(m, None, last, x); }
    }
  }

  /** The ranges before the next one to come. */
  ghost function Upto(m: Ranges, next: Option<int>): Ranges {
    map k | k in m && (next.None? || k < next.value) :: m[k]
  }

  lemma UptoNext(m: Ranges, k: int, next: Option<int>)
    requires k in m && IsAfter(m, k, next)
    ensures k !in Upto(m, Some(k)) && Upto(m, next) == Upto(m, Some(k))[k := m[k]]
  {
  }

  lemma UptoTidy(m: Ranges, next: Option<int>)
    requires Tidy(m)
    ensures Tidy(Upto(m, next))
  {
  }

  /** How many numbers there are. */
  method Size(m: Ranges) returns (c: nat)
    requires Tidy(m)
    ensures c == |Elements(m)|
  {
    c := 0;
    var next := First(m);
    assert Upto(m, next) == map[];
    assert Elements(map[]) == {};
    while next.Some?
      invariant next.Some? ==> next.value in m
      invariant c == |Elements(Upto(m, next))|
      decreases m.Keys - Upto(m, next).Keys
    {
      var k := next.value;
      next := UpperBound(m, k);
      UptoNext(m, k, next);
      UptoTidy(m, next);
      ElementsAdded(Upto(m, Some(k)), k, m[k]);
      c := c + (m[k] - k);
    }
    assert Upto(m, None) == m;
  }

  /** The first range of all. */
  method First(m: Ranges) returns (r: Option<int>)
    ensures r.None? <==> m == map[]
    ensures r.Some? ==> r.value in m && forall k :: k in m ==> k >= r.value
  {
    r := None;
    var rest := m.Keys;
    while rest != {}
      invariant rest <= m.Keys
      invariant r.None? ==> rest == m.Keys
      invariant r.Some? ==> r.value in m && forall k :: k in m && k !in rest ==> k >= r.value
      decreases |rest|
    {
      SomeKey(rest);
      var k :| k in rest;
      rest := rest - {k};
      if r.None? || k < r.value { r := Some(k); }
    }
    assert r.None? ==> m.Keys == {};
  }

  /** A part of a set that leaves out no smaller number. */
  ghost predicate Initial(m: Ranges, r: Ranges) {
    && Tidy(r) && (forall k :: k in r ==> k in m && r[k] <= m[k])
    && (forall x, y :: Has(r, x) && y <= x && Has(m, y) ==> Has(r, y))
  }

  /** The `n` smallest numbers, or all of them. */
  method Lowest(m: Ranges, n: nat) returns (r: Ranges)
    requires Tidy(m)
    ensures Initial(m, r) && |Elements(r)| == if n < |Elements(m)| then n else |Elements(m)|
  {
    r := map[];
    var items := n;
    var next := First(m);
    assert Upto(m, next) == map[];
    assert Elements(map[]) == {};
    hide Initial, Tidy, Elements, IsAfter;
    while next.Some? && items > 0
      invariant next.Some? ==> next.value in m
      invariant r == map[] || Initial(m, r)
      invariant items > 0 ==> r == Upto(m, next)
      invariant 0 <= items <= n && |Elements(r)| == n - items
      decreases m.Keys - Upto(m, next).Keys
    {
      var k := next.value;
      Widths(m, k);
      var end := if k + items < m[k] then k + items else m[k];
      next := UpperBound(m, k);
      LowestStep(m, k, next, end);
      r := r[k := end];
      items := items - (end - k);
    }
    UptoAll(m);
    NothingIsInitial(m);
    LowestCount(m, r);
  }

  lemma Widths(m: Ranges, k: int)
    requires Tidy(m) && k in m
    ensures k < m[k]
  {
  }

  lemma UptoAll(m: Ranges)
    ensures Upto(m, None) == m
  {
  }

  lemma NothingIsInitial(m: Ranges)
    ensures Initial(m, map[])
  {
  }

  lemma {:induction false} LowestStep(m: Ranges, k: int, next: Option<int>, end: int)
    requires Tidy(m) && k in m && IsAfter(m, k, next) && k < end <= m[k]
    ensures var p := Upto(m, Some(k));
      && Initial(m, p[k := end]) && |Elements(p[k := end])| == |Elements(p)| + (end - k)
      && (end == m[k] ==> p[k := end] == Upto(m, next))
    ensures next.Some? ==> next.value in m
    ensures m.Keys - Upto(m, next).Keys < m.Keys - Upto(m, Some(k)).Keys
  {
    var p := Upto(m, Some(k));
    UptoNext(m, k, next);
    CutTidy(m, k, end);
    ElementsAdded(p, k, end);
    var r := p[k := end];
    hide Elements, Has, IsAfter, Upto;
    forall x, y | Has(r, x) && y <= x && Has(m, y)
      ensures Has(r, y)
    {
      LowestDown(m, k, end, x, y);
    }
    assert k in m.Keys - p.Keys && k !in m.Keys - Upto(m, next).Keys;
  }

  lemma CutTidy(m: Ranges, k: int, end: int)
    requires Tidy(m) && k in m && k < end <= m[k]
    ensures var r := Upto(m, Some(k))[k := end];
      Tidy(r) && forall j :: j in r ==> j in m && r[j] <= m[j]
  {
  }

  lemma {:induction false} LowestDown(m: Ranges, k: int, end: int, x: int, y: int)
    requires Tidy(m) && k in m && k < end <= m[k]
    requires Has(Upto(m, Some(k))[k := end], x) && y <= x && Has(m, y)
    ensures Has(Upto(m, Some(k))[k := end], y)
  {
    var r := Upto(m, Some(k))[k := end];
    var i :| Covers(r, i, x);
    var j :| Covers(m, j, y);
    assert i in m && m[i] > x && i <= k;
    assert j <= i && Covers(r, j, y);
  }

  lemma {:induction false} LowestCount(m: Ranges, r: Ranges)
    requires Initial(m, r)
    ensures |Elements(r)| <= |Elements(m)|
  {
    forall x | x in Elements(r)
      ensures x in Elements(m)
    {
      ElementsAre(r, x);
      var k :| Covers(r, k, x);
      assert Covers(m, k, x);
      ElementsAre(m, x);
    }
    SubsetSize(Elements(r), Elements(m));
  }

  lemma {:induction false} SubsetSize(a: set<int>, b: set<int>)
    requires a <= b
    ensures |a| <= |b|
  {
    if a != {} {
      SomeKey(a);
      var x :| x in a;
      SubsetSize(a - {x}, b - {x});
    }
  }

  /** Inverting twice gives back the very same ranges. */
  lemma {:induction false} ComplementTwice(m: Ranges, r: Ranges, again: Ranges, lo: int, hi: int)
    requires Tidy(m) && Within(m, lo, hi) && Tidy(again)
    requires forall x :: Has(r, x) <==> lo <= x < hi && !Has(m, x)
    requires forall x :: Has(again, x) <==> lo <= x < hi && !Has(r, x)
    ensures again == m
  {
    HasWithin(m, lo, hi);
    TidyIsUnique(m, again);
  }

  /** What the ranges of a difference hold, when the grounds [lo, hi) and [from, to) differ. */
  ghost predicate IsDifference(r: Ranges, m: Ranges, lo: int, hi: int, s: Ranges, from: int, to: int) {
    forall x :: Has(r, x) <==>
      (if lo < from then lo else from) <= x < (if hi > to then hi else to)
      && !Has(s, x) && (lo <= x < hi ==> Has(m, x))
  }

  /**
   It is the difference of the sets exactly when the subtrahend covers whatever its ground adds.
   Above all it is the difference when the subtrahend's ground lies inside.
   */
  lemma {:induction false} DifferenceExactly(r: Ranges, m: Ranges, lo: int, hi: int, s: Ranges, from: int, to: int)
    requires Within(m, lo, hi) && Within(s, from, to) && IsDifference(r, m, lo, hi, s, from, to)
    ensures (forall x :: Has(r, x) <==> Has(m, x) && !Has(s, x)) <==>
      (forall x :: Inside(if lo < from then lo else from, if hi > to then hi else to, x) && !Has(s, x) ==> lo <= x < hi)
    ensures lo <= from && to <= hi ==> forall x :: Has(r, x) <==> Has(m, x) && !Has(s, x)
  {
    forall x
      ensures Has(m, x) ==> lo <= x < hi
    {
      assert forall k :: Covers(m, k, x) ==> lo <= x < hi;
    }
    var a, b := if lo < from then lo else from, if hi > to then hi else to;
    assert forall x :: Inside(a, b, x) <==> a <= x < b;
    assert forall x :: Has(r, x) <==> Inside(a, b, x) && !Has(s, x) && (lo <= x < hi ==> Has(m, x));
  }

  /** A subtrahend with the larger ground range can add numbers: here nothing less nothing is one number. */
  lemma {:induction false} DifferenceCanAdd()
    ensures IsDifference(map[1 := 2], map[], 0, 1, map[], 0, 2) && Has(map[1 := 2], 1)
  {
    var r, none: Ranges := map[1 := 2], map[];
    forall x
      ensures Has(r, x) <==> x == 1
    {
      assert Covers(r, 1, x) <==> x == 1;
    }
    assert forall k, x :: !Covers(none, k, x);
  }

  // ---- the merge loop ----

  /** The ranges `m` together with [i, hi) are the ranges `old'` together with [lo, hi), inside [a, b). */
  ghost predicate Merging(old': Ranges, lo: int, m: Ranges, i: int, hi: int, a: int, b: int) {
    && Tidy(m) && Within(m, a, b) && a <= i && hi <= b
    && forall x :: Has(m, x) || i <= x < hi <==> Has(old', x) || lo <= x < hi
  }

  lemma {:induction false} NothingMerged(m: Ranges, lo: int, hi: int, a: int, b: int)
    requires Tidy(m) && Within(m, a, b) && a <= lo && hi <= b
    ensures Merging(m, lo, m, lo, hi, a, b)
  {
  }

  lemma {:induction false} AllMerged(old': Ranges, lo: int, m: Ranges, i: int, hi: int, a: int, b: int)
    requires Merging(old', lo, m, i, hi, a, b) && hi <= i
    ensures Tidy(m) && Within(m, a, b) && forall x :: Has(m, x) <==> Has(old', x) || lo <= x < hi
  {
  }

  /** The last range before and the first range after a number. */
  ghost predicate Around(m: Ranges, i: int, it: Option<int>, after: Option<int>) {
    IsBefore(m, i, it) && IsAfter(m, i, after)
  }

  lemma {:induction false} NewRange(old': Ranges, lo: int, m: Ranges, i: int, hi: int, a: int, b: int, it: Option<int>, after: Option<int>)
    requires Merging(old', lo, m, i, hi, a, b) && i < hi && Around(m, i, it, after)
    requires (it.None? || m[it.value] < i) && (after.None? || after.value > hi)
    ensures Merging(old', lo, m[i := hi], hi, hi, a, b)
  {
    assert forall k :: k in m && it.Some? && k < it.value ==> m[k] < it.value;
    Added(m, i, hi);
    hide Has;
    MergedTo(old', lo, m, i, m[i := hi], hi, hi);
  }

  lemma {:induction false} MergedAbove(old': Ranges, lo: int, m: Ranges, i: int, hi: int, a: int, b: int, it: Option<int>, after: int)
    requires Merging(old', lo, m, i, hi, a, b) && i < hi && Around(m, i, it, Some(after))
    requires (it.None? || m[it.value] < i) && after <= hi
    ensures m[after] > i && Merging(old', lo, m[i := m[after]] - {after}, m[after], hi, a, b)
  {
    assert forall k :: k in m && it.Some? && k < it.value ==> m[k] < it.value;
    BegunEarlier(m, i, after);
    Passed(m, after, after);
  }

  lemma {:induction false} MergedBelow(old': Ranges, lo: int, m: Ranges, i: int, hi: int, a: int, b: int, it: int, after: Option<int>)
    requires Merging(old', lo, m, i, hi, a, b) && i < hi && Around(m, i, Some(it), after)
    requires m[it] == i && (after.None? || after.value > hi)
    ensures Merging(old', lo, m[it := hi], hi, hi, a, b)
  {
    hide Has;
    Prolonged(m, it, hi);
    var r := m[it := hi];
    forall x
      ensures Has(r, x) || hi <= x < hi <==> Has(m, x) || i <= x < hi
    {
    }
    MergedTo(old', lo, m, i, r, hi, hi);
  }

  /** A step that adds what it passes. */
  lemma {:induction false} MergedTo(old': Ranges, lo: int, m: Ranges, i: int, r: Ranges, j: int, hi: int)
    requires forall x :: Has(m, x) || i <= x < hi <==> Has(old', x) || lo <= x < hi
    requires forall x :: Has(r, x) || j <= x < hi <==> Has(m, x) || i <= x < hi
    ensures forall x :: Has(r, x) || j <= x < hi <==> Has(old', x) || lo <= x < hi
  {
    hide Has;
    forall x
      ensures Has(r, x) || j <= x < hi <==> Has(old', x) || lo <= x < hi
    {
      assert Has(m, x) || i <= x < hi <==> Has(old', x) || lo <= x < hi;
    }
  }

  lemma {:induction false} MergedBoth(old': Ranges, lo: int, m: Ranges, i: int, hi: int, a: int, b: int, it: int, after: int)
    requires Merging(old', lo, m, i, hi, a, b) && i < hi && Around(m, i, Some(it), Some(after))
    requires m[it] == i && after <= hi
    ensures m[after] > i && Merging(old', lo, m[it := m[after]] - {after}, m[after], hi, a, b)
  {
    Joined(m, it, after);
    Passed(m, after, after);
  }

  lemma {:induction false} MovedOn(old': Ranges, lo: int, m: Ranges, i: int, hi: int, a: int, b: int, it: int)
    requires Merging(old', lo, m, i, hi, a, b) && i < hi && it in m && it <= i < m[it]
    ensures Merging(old', lo, m, m[it], hi, a, b)
  {
    Passed(m, it, i);
  }

  class RangeMask {
    // The ground range [first, second).
    var first: int
    var second: int
    var ranges: Ranges

    constructor (begin: int, end: int)
      requires begin <= end
      ensures Valid() && first == begin && second == end && ranges == map[]
    {
      first, second, ranges := begin, end, map[];
    }

    ghost predicate Valid()
      reads this
    {
      first <= second && Tidy(ranges) && Within(ranges, first, second)
    }

    /** Adds [lo, hi), which has to lie in the ground range unless it is empty. */
    method UnionWith(lo: int, hi: int)
      requires Valid() && (lo < hi ==> first <= lo && hi <= second)
      modifies this`ranges
      ensures Valid() && forall x :: Has(ranges, x) <==> old(Has(ranges, x)) || lo <= x < hi
    {
      if lo >= hi { return; }
      ghost var before, a, b := ranges, first, second;
      var i := lo;
      ghost var end := i;
      NothingMerged(ranges, lo, hi, a, b);
      hide Merging, IsAfter, IsBefore;
      while i < hi
        invariant end == i && Merging(before, lo, ranges, i, hi, a, b)
      {
        var after := UpperBound(ranges, i);
        var it := LastBefore(ranges, i);
        Neighbours(ranges, i, it, after);
        if it.None? || ranges[it.value] < i {
          if after.None? || after.value > hi {
            NewRange(before, lo, ranges, i, hi, a, b, it, after);
            ranges := ranges[i := hi];
            end := hi;
            break;
          } else {
            MergedAbove(before, lo, ranges, i, hi, a, b, it, after.value);
            var next := ranges[after.value];
            ranges := ranges[i := next] - {after.value};
            i := next;
          }
        } else if ranges[it.value] == i {
          if after.None? || after.value > hi {
            MergedBelow(before, lo, ranges, i, hi, a, b, it.value, after);
            ranges := ranges[it.value := hi];
            end := hi;
            break;
          } else {
            MergedBoth(before, lo, ranges, i, hi, a, b, it.value, after.value);
            var next := ranges[after.value];
            ranges := ranges[it.value := next] - {after.value};
            i := next;
          }
        } else {
          MovedOn(before, lo, ranges, i, hi, a, b, it.value);
          i := ranges[it.value];
        }
        end := i;
      }
      AllMerged(before, lo, ranges, end, hi, a, b);
    }

    /** Adds one number. */
    method UnionWithOne(i: int)
      requires Valid() && first <= i < second
      modifies this`ranges
      ensures Valid() && forall x :: Has(ranges, x) <==> old(Has(ranges, x)) || x == i
    {
      UnionWith(i, i + 1);
    }

    /** Adds another mask, and its ground range with it; a mask added to itself stays the same. */
    method UnionWithMask(other: RangeMask)
      requires Valid() && other.Valid()
      modifies this
      ensures Valid()
      ensures first == old(if other.first < first then other.first else first)
      ensures second == old(if other.second > second then other.second else second)
      ensures forall x :: Has(ranges, x) <==> old(Has(ranges, x)) || old(Has(other.ranges, x))
      ensures other == this ==> ranges == old(ranges)
    {
      ghost var before, theirs := ranges, other.ranges;
      first := if other.first < first then other.first else first;
      second := if other.second > second then other.second else second;
      var next := First(other.ranges);
      UptoNone(theirs, next);
      hide Tidy, Has, Upto;
      while next.Some?
        modifies this`ranges
        invariant Valid() && Within(theirs, first, second) && other.ranges == theirs
        invariant next.Some? ==> next.value in theirs
        invariant forall x :: Has(ranges, x) <==> Has(before, x) || Has(Upto(theirs, next), x)
        decreases theirs.Keys - Upto(theirs, next).Keys
      {
        var k := next.value;
        ghost var now := ranges;
        next := UpperBound(other.ranges, k);
        UptoMore(theirs, k, next);
        UnionWith(k, other.ranges[k]);
        if other == this { Unmoved(now, ranges, k); }
      }
      UptoAll(theirs);
    }

    /** The complement in the ground range. */
    method Inverted() returns (r: RangeMask)
      requires Valid()
      ensures fresh(r) && r.Valid() && r.first == first && r.second == second
      ensures forall x :: Has(r.ranges, x) <==> first <= x < second && !Has(ranges, x)
    {
      r := new RangeMask(first, second);
      r.ranges := Complement(ranges, first, second);
    }

    method Invert()
      requires Valid()
      modifies this`ranges
      ensures Valid() && forall x :: Has(ranges, x) <==> first <= x < second && !old(Has(ranges, x))
    {
      ranges := Complement(ranges, first, second);
    }

    /** Takes [lo, hi) away. */
    method Subtract(lo: int, hi: int)
      requires Valid() && (lo < hi ==> first <= lo && hi <= second)
      modifies this`ranges
      ensures Valid() && forall x :: Has(ranges, x) <==> old(Has(ranges, x)) && !(lo <= x < hi)
    {
      HasWithin(ranges, first, second);
      Invert();
      UnionWith(lo, hi);
      Invert();
    }

    /** Takes another mask away; a mask taken away from itself stays the same. */
    method SubtractMask(other: RangeMask)
      requires Valid() && other.Valid()
      modifies this
      ensures Valid()
      ensures other != this ==>
        IsDifference(ranges, old(ranges), old(first), old(second), other.ranges, other.first, other.second)
      ensures other == this ==> ranges == old(ranges)
    {
      ghost var before := ranges;
      HasWithin(ranges, first, second);
      Invert();
      UnionWithMask(other);
      Invert();
      if other == this { TidyIsUnique(before, ranges); }
    }

    /** The smallest `n` numbers. */
    method LowestItems(n: nat) returns (r: RangeMask)
      requires Valid()
      ensures fresh(r) && r.Valid() && r.first == first && r.second == second
      ensures Initial(ranges, r.ranges)
      ensures |Elements(r.ranges)| == if n < |Elements(ranges)| then n else |Elements(ranges)|
    {
      r := new RangeMask(first, second);
      r.ranges := Lowest(ranges, n);
    }

    method Contains(i: int) returns (b: bool)
      requires Valid()
      ensures b <==> Has(ranges, i)
    {
      var it := LastBefore(ranges, i);
      if it.None? { return false; }
      HasIs(ranges, i, it.value);
      return ranges[it.value] > i;
    }

    /** The smallest number of the set above `t`, or the end of the ground range. */
    method Next(t: int) returns (n: int)
      requires Valid()
      ensures if n == second then forall x :: t < x ==> !Has(ranges, x)
        else Has(ranges, n) && n > t && forall x :: t < x < n ==> !Has(ranges, x)
    {
      var from := t + 1;
      var after := UpperBound(ranges, from);
      var it := LastBefore(ranges, from);
      if it.Some? && ranges[it.value] > from {
        assert Covers(ranges, it.value, from);
        return from;
      }
      forall x | from <= x && (after.Some? ==> x < after.value)
        ensures !Has(ranges, x)
      {
        NothingAfter(ranges, from, it, after, x);
      }
      if after.None? { return second; }
      assert Covers(ranges, after.value, after.value);
      return after.value;
    }

    /** Whether nothing of the ground range is missing. */
    method Full() returns (b: bool)
      requires Valid()
      ensures b <==> forall x :: first <= x < second ==> Has(ranges, x)
    {
      if first == second { return true; }
      var it := First(ranges);
      FullIs(ranges, first, second);
      return |ranges| == 1 && it.Some? && it.value == first && ranges[it.value] == second;
    }

    /** The smallest number from the start of the ground range on that is not in the set. */
    method FirstOut() returns (n: int)
      requires Valid()
      ensures first <= n <= second && !Has(ranges, n) && forall x :: first <= x < n ==> Has(ranges, x)
    {
      if first !in ranges {
        FirstIsOut(ranges, first, second);
        return first;
      }
      Gaps(ranges, first);
      Passed(ranges, first, first);
      return ranges[first];
    }

    /** The largest number of the set, or the start of the ground range if it is empty. */
    method LastIn() returns (n: int)
      requires Valid()
      ensures if ranges == map[] then n == first else Has(ranges, n) && forall x :: Has(ranges, x) ==> x <= n
    {
      var it := LastBefore(ranges, second);
      if it.None? {
        assert forall k :: k !in ranges;
        assert ranges == map[];
        return first;
      }
      assert Covers(ranges, it.value, ranges[it.value] - 1);
      forall x | Has(ranges, x)
        ensures x <= ranges[it.value] - 1
      {
        var k :| Covers(ranges, k, x);
      }
      return ranges[it.value] - 1;
    }
  }

  lemma {:induction false} UptoMore(m: Ranges, k: int, next: Option<int>)
    requires Tidy(m) && k in m && IsAfter(m, k, next)
    ensures forall x :: Has(Upto(m, next), x) <==> Has(Upto(m, Some(k)), x) || k <= x < m[k]
    ensures m.Keys - Upto(m, next).Keys < m.Keys - Upto(m, Some(k)).Keys
    ensures next.Some? ==> next.value in m
  {
    UptoNext(m, k, next);
    UptoTidy(m, next);
    forall x
      ensures Has(Upto(m, next), x) <==> Has(Upto(m, Some(k)), x) || k <= x < m[k]
    {
      AddedAt(Upto(m, Some(k)), k, m[k], x);
    }
    assert k in m.Keys - Upto(m, Some(k)).Keys;
  }

  lemma UptoNone(m: Ranges, next: Option<int>)
    requires next.None? ==> m == map[]
    requires next.Some? ==> forall k :: k in m ==> k >= next.value
    ensures forall x :: !Has(Upto(m, next), x)
  {
  }

  /** Adding a range that is there already changes nothing. */
  lemma {:induction false} Unmoved(before: Ranges, after: Ranges, k: int)
    requires Tidy(before) && Tidy(after) && k in before
    requires forall x :: Has(after, x) <==> Has(before, x) || k <= x < before[k]
    ensures after == before
  {
    assert k < before[k];
    Passed(before, k, k);
    TidyIsUnique(before, after);
  }

  lemma {:induction false} HasWithin(m: Ranges, lo: int, hi: int)
    requires Within(m, lo, hi)
    ensures forall x :: Has(m, x) ==> lo <= x < hi
  {
    forall x | Has(m, x) ensures lo <= x < hi { var k :| Covers(m, k, x); }
  }

  lemma {:induction false} HasIs(m: Ranges, i: int, it: int)
    requires Tidy(m) && IsBefore(m, i, Some(it))
    ensures Has(m, i) <==> m[it] > i
  {
    assert Covers(m, it, i) <==> m[it] > i;
    forall k | k != it ensures !Covers(m, k, i) { assert k in m && k < it ==> m[k] < it; }
  }

  lemma {:induction false} NothingAfter(m: Ranges, from: int, it: Option<int>, after: Option<int>, x: int)
    requires Tidy(m) && IsBefore(m, from, it) && IsAfter(m, from, after)
    requires it.Some? ==> m[it.value] <= from
    requires from <= x && (after.Some? ==> x < after.value)
    ensures !Has(m, x)
  {
    forall k ensures !Covers(m, k, x) { assert it.Some? && k in m && k < it.value ==> m[k] < it.value; }
  }

  lemma {:induction false} FirstIsOut(m: Ranges, lo: int, hi: int)
    requires Within(m, lo, hi) && lo !in m
    ensures !Has(m, lo)
  {
    forall k ensures !Covers(m, k, lo) {}
  }

  lemma {:induction false} FullIs(m: Ranges, lo: int, hi: int)
    requires Tidy(m) && Within(m, lo, hi) && lo < hi
    ensures m == map[lo := hi] <==> forall x :: lo <= x < hi ==> Has(m, x)
    ensures m == map[lo := hi] <==> |m| == 1 && lo in m && m[lo] == hi
  {
    HasWithin(m, lo, hi);
    var whole := map[lo := hi];
    forall x
      ensures Has(whole, x) <==> lo <= x < hi
    {
      assert Covers(whole, lo, x) <==> lo <= x < hi;
    }
    if forall x :: lo <= x < hi ==> Has(m, x) {
      TidyIsUnique(m, whole);
    }
    if |m| == 1 && lo in m {
      assert m.Keys == {lo} by { Singleton(m.Keys, lo); }
    }
  }

  lemma {:induction false} Singleton(s: set<int>, x: int)
    requires |s| == 1 && x in s
    ensures s == {x}
  {
    assert |s - {x}| == 0;
  }

  lemma {:induction false} Neighbours(m: Ranges, i: int, it: Option<int>, after: Option<int>)
    requires IsBefore(m, i, it) && IsAfter(m, i, after)
    ensures (it.Some? ==> it.value in m && it.value <= i) && (after.Some? ==> after.value in m && after.value > i)
  {
  }

  /** Going to the end of the range that holds a number passes only numbers of the range. */
  lemma {:induction false} Passed(m: Ranges, it: int, i: int)
    requires Covers(m, it, i)
    ensures forall x :: i <= x < m[it] ==> Has(m, x)
  {
    forall x | i <= x < m[it] ensures Has(m, x) { assert Covers(m, it, x); }
  }
}
