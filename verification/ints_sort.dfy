/**
 Sorting in place (lib/ints): merge sort with an exchange sort for short ranges, moving an index array along with the
 data. The merge swaps runs that may land out of order; what makes it right is that the minimum of what is left is looked
 up again before the front moves on.
 */
module IntsSort {
  import opened Lists

  /** a may stand before b. */
  predicate Ordered(asc: bool, a: int, b: int) {
    if asc then a <= b else a >= b
  }

  predicate Sorted(s: seq<int>, l: nat, r: nat, asc: bool)
    requires r <= |s|
  {
    forall i, j :: l <= i < j < r ==> Ordered(asc, s[i], s[j])
  }

  /** Positions l to x are final: in order, and before everything up to r. */
  predicate Settled(s: seq<int>, l: nat, x: nat, r: nat, asc: bool)
    requires r <= |s|
  {
    forall i, j :: l <= i < x && i < j < r ==> Ordered(asc, s[i], s[j])
  }

  /** s[y] may stand before everything from x to r. */
  predicate First(s: seq<int>, y: nat, x: nat, r: nat, asc: bool)
    requires y < r <= |s|
  {
    forall k :: x <= k < r ==> Ordered(asc, s[y], s[k])
  }

  // ---------------------------------------------------------------- moving data and indices together

  /** The index slice is as long as the data at least, or too short for Swap to touch it. */
  predicate Tracks(d: seq<int>, idx: seq<int>) {
    |idx| >= |d| || |idx| <= 1
  }

  /** Values with their indices; an index slice that is too short gives no indices. */
  function Zip(d: seq<int>, idx: seq<int>): (z: seq<(int, int)>)
    ensures |z| == |d|
  {
    seq(|d|, i requires 0 <= i < |d| => (d[i], if |idx| >= |d| then idx[i] else 0))
  }

  /** The same pairs of value and index, moved only between l and r. */
  ghost predicate Moved(d0: seq<int>, idx0: seq<int>, d: seq<int>, idx: seq<int>, l: nat, r: nat) {
    && |d0| == |d| && |idx0| == |idx|
    && multiset(Zip(d, idx)) == multiset(Zip(d0, idx0))
    && (forall i :: 0 <= i < |d| && !(l <= i < r) ==> d[i] == d0[i])
    && (forall i :: 0 <= i < |idx| && (|idx| < |d| || !(l <= i < r)) ==> idx[i] == idx0[i])
  }

  function Swapped<T>(s: seq<T>, x: nat, y: nat): seq<T>
    requires x < |s| && y < |s|
  {
    s[x := s[y]][y := s[x]]
  }

  lemma SwapKeepsElements<T>(s: seq<T>, x: nat, y: nat)
    requires x < y < |s|
    ensures multiset(Swapped(s, x, y)) == multiset(s)
  {
    var a, b, c := s[..x], s[x + 1..y], s[y + 1..];
    assert s == a + [s[x]] + b + [s[y]] + c;
    assert Swapped(s, x, y) == a + [s[y]] + b + [s[x]] + c;
  }

  /** The indices after a swap. */
  function SwappedIn(idx: seq<int>, x: nat, y: nat): (r: seq<int>)
    requires |idx| <= 1 || (x < |idx| && y < |idx|)
    ensures |r| == |idx|
  {
    if |idx| <= 1 then idx else Swapped(idx, x, y)
  }

  lemma SwapMoved(d: seq<int>, idx: seq<int>, x: nat, y: nat, l: nat, r: nat)
    requires Tracks(d, idx) && l <= x < y < r <= |d|
    ensures Moved(d, idx, Swapped(d, x, y), SwappedIn(idx, x, y), l, r)
  {
    assert Zip(Swapped(d, x, y), SwappedIn(idx, x, y)) == Swapped(Zip(d, idx), x, y);
    SwapKeepsElements(Zip(d, idx), x, y);
  }

  lemma MovedSelf(d: seq<int>, idx: seq<int>, l: nat, r: nat)
    ensures Moved(d, idx, d, idx, l, r)
  {
  }

  lemma MovedThen(d0: seq<int>, i0: seq<int>, d1: seq<int>, i1: seq<int>, d2: seq<int>, i2: seq<int>, l: nat, r: nat, l': nat, r': nat)
    requires Moved(d0, i0, d1, i1, l, r) && Moved(d1, i1, d2, i2, l', r')
    requires l <= l' && r' <= r
    ensures Moved(d0, i0, d2, i2, l, r)
  {
  }

  lemma MovedWiden(d0: seq<int>, i0: seq<int>, d: seq<int>, i: seq<int>, l: nat, m: nat, r: nat)
    requires Moved(d0, i0, d, i, l, m) && m <= r
    ensures Moved(d0, i0, d, i, l, r)
  {
  }

  /** What was true of every value between l and r still is: the values there are the same. */
  lemma MovedWithin(d0: seq<int>, i0: seq<int>, d: seq<int>, i: seq<int>, l: nat, r: nat)
    requires Moved(d0, i0, d, i, l, r) && l <= r <= |d|
    ensures multiset(d[l..r]) == multiset(d0[l..r])
    ensures forall k :: l <= k < r ==> Among(d0, l, r, d[k])
  {
    ZipFirst(d0, i0);
    ZipFirst(d, i);
    FirstsSame(Zip(d, i), Zip(d0, i0));
    RangeSame(d0, d, l, r);
    forall k | l <= k < r ensures Among(d0, l, r, d[k]) {
      FoundIn(d0, d, l, r, k);
    }
  }

  predicate Among(s: seq<int>, l: nat, r: nat, v: int)
    requires r <= |s|
  {
    exists j :: l <= j < r && v == s[j]
  }

  lemma RangeSame(d0: seq<int>, d: seq<int>, l: nat, r: nat)
    requires |d| == |d0| && l <= r <= |d| && multiset(d) == multiset(d0)
    requires forall i :: 0 <= i < |d| && !(l <= i < r) ==> d[i] == d0[i]
    ensures multiset(d[l..r]) == multiset(d0[l..r])
  {
    assert d[..l] == d0[..l] && d[r..] == d0[r..];
    assert d == d[..l] + d[l..r] + d[r..] && d0 == d0[..l] + d0[l..r] + d0[r..];
    Cancel(multiset(d[..l]), multiset(d[l..r]), multiset(d0[l..r]), multiset(d[r..]));
  }

  lemma Cancel<T>(a: multiset<T>, b: multiset<T>, m: multiset<T>, c: multiset<T>)
    requires a + b + c == a + m + c
    ensures b == m
  {
    forall e ensures b[e] == m[e] {
      assert (a + b + c)[e] == a[e] + b[e] + c[e] && (a + m + c)[e] == a[e] + m[e] + c[e];
    }
  }

  lemma FoundIn(d0: seq<int>, d: seq<int>, l: nat, r: nat, k: nat)
    requires l <= k < r <= |d| == |d0| && multiset(d[l..r]) == multiset(d0[l..r])
    ensures Among(d0, l, r, d[k])
  {
    assert d[l..r][k - l] == d[k];
    assert d[k] in multiset(d[l..r]);
    assert d[k] in d0[l..r];
    var m :| 0 <= m < r - l && d0[l..r][m] == d[k];
    assert d0[l + m] == d[k];
  }

  function Firsts(z: seq<(int, int)>): (r: seq<int>)
    ensures |r| == |z|
  {
    seq(|z|, i requires 0 <= i < |z| => z[i].0)
  }

  lemma ZipFirst(d: seq<int>, idx: seq<int>)
    ensures Firsts(Zip(d, idx)) == d
  {
  }

  /** Equal multisets of pairs have equal multisets of first components. */
  lemma {:induction false} FirstsSame(a: seq<(int, int)>, b: seq<(int, int)>)
    requires multiset(a) == multiset(b)
    ensures multiset(Firsts(a)) == multiset(Firsts(b))
    decreases |a|
  {
    hide Firsts;
    if a == [] {
      NoneElse(b);
    } else {
      var k := PlaceOf(a[0], a, b);
      WithoutOne(a, 0);
      WithoutOne(b, k);
      FirstsSame(a[..0] + a[1..], b[..k] + b[k + 1..]);
    }
  }

  lemma NoneElse(b: seq<(int, int)>)
    requires multiset(b) == multiset([])
    ensures b == []
  {
    assert |multiset(b)| == |b|;
  }

  lemma PlaceOf(x: (int, int), a: seq<(int, int)>, b: seq<(int, int)>) returns (k: nat)
    requires multiset(a) == multiset(b) && x in a
    ensures k < |b| && b[k] == x
  {
    assert x in multiset(a);
    k :| 0 <= k < |b| && b[k] == x;
  }

  lemma WithoutOne(b: seq<(int, int)>, k: nat)
    requires k < |b|
    ensures var b' := b[..k] + b[k + 1..];
      && multiset(b') == multiset(b) - multiset{b[k]}
      && multiset(Firsts(b)) == multiset(Firsts(b')) + multiset{b[k].0}
  {
    var b' := b[..k] + b[k + 1..];
    assert b == b[..k] + [b[k]] + b[k + 1..];
    var f, g := Firsts(b[..k]), Firsts(b[k + 1..]);
    assert Firsts(b) == f + [b[k].0] + g;
    assert Firsts(b') == f + g;
  }

  // ---------------------------------------------------------------- the methods

  /** Swap leaves equal and far indices alone; an index outside the slice that gets past its test panics. */
  predicate Ignored(len: nat, x: int, y: int) {
    x == y || len <= 1 || x > len || y > len
  }

  /** Swap */
  method Swap(d: array<int>, x: int, y: int)
    requires Ignored(d.Length, x, y) || (0 <= x < d.Length && 0 <= y < d.Length)
    modifies d
    ensures d[..] == if Ignored(d.Length, x, y) then old(d[..]) else Swapped(old(d[..]), x, y)
  {
    if x == y || d.Length <= 1 || x > d.Length || y > d.Length {
      return;
    }
    var tmp := d[x];
    d[x] := d[y];
    d[y] := tmp;
  }

  /** The two swaps that keep data and indices together. */
  method SwapBoth(d: array<int>, idx: array<int>, x: nat, y: nat)
    requires d != idx && Tracks(d[..], idx[..]) && x < y < d.Length
    modifies d, idx
    ensures d[..] == Swapped(old(d[..]), x, y) && idx[..] == SwappedIn(old(idx[..]), x, y)
  {
    Swap(idx, x, y);
    Swap(d, x, y);
  }

  /** InplaceInsertionSort */
  method InplaceInsertionSort(d: array<int>, ids: array<int>, l: nat, r: nat, asc: bool)
    requires d != ids && Tracks(d[..], ids[..]) && r <= d.Length
    modifies d, ids
    ensures Sorted(d[..], l, r, asc)
    ensures Moved(old(d[..]), old(ids[..]), d[..], ids[..], l, r)
  {
    hide Moved;
    ghost var d0, i0 := d[..], ids[..];
    MovedSelf(d0, i0, l, r);
    var x := l;
    while x < r
      invariant l <= x && (x <= r || r < l)
      invariant Settled(d[..], l, x, r, asc)
      invariant Moved(d0, i0, d[..], ids[..], l, r)
    {
      ghost var d1, i1 := d[..], ids[..];
      SelectAt(d, ids, x, r, asc);
      MovedThen(d0, i0, d1, i1, d[..], ids[..], l, r, x, r);
      SettledKept(d1, i1, d[..], ids[..], l, x, r, asc);
      x := x + 1;
    }
  }

  /** The inner loop: exchanges until d[x] may stand before everything up to r. */
  method SelectAt(d: array<int>, ids: array<int>, x: nat, r: nat, asc: bool)
    requires d != ids && Tracks(d[..], ids[..]) && x < r <= d.Length
    modifies d, ids
    ensures Moved(old(d[..]), old(ids[..]), d[..], ids[..], x, r)
    ensures forall j :: x < j < r ==> Ordered(asc, d[x], d[j])
  {
    hide Moved;
    ghost var d0, i0 := d[..], ids[..];
    MovedSelf(d0, i0, x, r);
    var y := x + 1;
    while y < r
      invariant x < y <= r
      invariant Moved(d0, i0, d[..], ids[..], x, r)
      invariant forall j :: x < j < y ==> Ordered(asc, d[x], d[j])
    {
      if asc {
        if d[x] > d[y] {
          ghost var d1, i1 := d[..], ids[..];
          SwapBoth(d, ids, x, y);
          SwapMoved(d1, i1, x, y, x, r);
          MovedThen(d0, i0, d1, i1, d[..], ids[..], x, r, x, r);
        }
      } else {
        if d[x] < d[y] {
          ghost var d1, i1 := d[..], ids[..];
          SwapBoth(d, ids, x, y);
          SwapMoved(d1, i1, x, y, x, r);
          MovedThen(d0, i0, d1, i1, d[..], ids[..], x, r, x, r);
        }
      }
      y := y + 1;
    }
  }

  /** MinRange: the last position of the minimum. */
  method MinRange(d: array<int>, l: nat, r: nat) returns (v: int, i: nat)
    requires l < d.Length && r <= d.Length
    ensures l <= i < d.Length && v == d[i] && (i < r || i == l)
    ensures forall k :: l <= k < r ==> d[i] <= d[k]
    ensures forall k :: i < k < r ==> d[i] < d[k]
  {
    v, i := d[l], l;
    var x := l + 1;
    while x < r
      invariant l <= i < x && i < d.Length && (x <= r || x == l + 1) && (i < r || i == l)
      invariant v == d[i] && forall k :: l <= k < x && k < r ==> d[i] <= d[k]
      invariant forall k :: i < k < x ==> d[i] < d[k]
    {
      if d[x] <= v {
        v, i := d[x], x;
      }
      x := x + 1;
    }
  }

  /** MaxRange: the last position of the maximum. */
  method MaxRange(d: array<int>, l: nat, r: nat) returns (v: int, i: nat)
    requires l < d.Length && r <= d.Length
    ensures l <= i < d.Length && v == d[i] && (i < r || i == l)
    ensures forall k :: l <= k < r ==> d[i] >= d[k]
    ensures forall k :: i < k < r ==> d[i] > d[k]
  {
    v, i := d[l], l;
    var x := l + 1;
    while x < r
      invariant l <= i < x && i < d.Length && (x <= r || x == l + 1) && (i < r || i == l)
      invariant v == d[i] && forall k :: l <= k < x && k < r ==> d[i] >= d[k]
      invariant forall k :: i < k < x ==> d[i] > d[k]
    {
      if d[x] >= v {
        v, i := d[x], x;
      }
      x := x + 1;
    }
  }

  /** minY: steps x over positions that are first already; y is where the first of the rest stands otherwise. */
  method MinY(d: array<int>, x0: nat, y0: nat, r: nat, asc: bool) returns (x: nat, y: nat)
    requires x0 <= r <= d.Length
    ensures x0 <= x <= r && Settled(d[..], x0, x, r, asc)
    ensures x < r ==> x < y < r && First(d[..], y, x, r, asc)
  {
    x, y := x0, y0;
    while x < r
      invariant x0 <= x <= r && Settled(d[..], x0, x, r, asc)
    {
      var v;
      if asc {
        v, y := MinRange(d, x, r);
      } else {
        v, y := MaxRange(d, x, r);
      }
      if y != x {
        break;
      }
      x := x + 1;
    }
  }

  /** moveY: the end of the run at y that belongs before d[x]. */
  method MoveY(d: array<int>, x: nat, y0: nat, r: nat, asc: bool) returns (y: nat)
    requires x < y0 < r <= d.Length
    ensures y0 < y <= r
    ensures forall k :: y0 < k < y ==> !Ordered(asc, d[x], d[k]) && Ordered(asc, d[y0], d[k])
    ensures y < r ==> Ordered(asc, d[x], d[y]) || !Ordered(asc, d[y0], d[y])
  {
    var yorg := y0;
    y := y0 + 1;
    while y < r
      invariant y0 < y <= r
      invariant forall k :: y0 < k < y ==> !Ordered(asc, d[x], d[k]) && Ordered(asc, d[y0], d[k])
    {
      if asc {
        if d[y] >= d[x] {
          break;
        }
        if d[y] < d[yorg] {
          break;
        }
      } else {
        if d[y] <= d[x] {
          break;
        }
        if d[y] > d[yorg] {
          break;
        }
      }
      y := y + 1;
    }
  }

  /**
   inplaceMultiswap: swaps the run at y0 to the front x0, element by element, and stops early by a comparison that is
   the same in both directions. Only the first position is sure to hold what belongs there.
   */
  method InplaceMultiswap(d: array<int>, idx: array<int>, x0: nat, y0: nat, ylast: nat) returns (y: nat)
    requires d != idx && Tracks(d[..], idx[..]) && x0 < y0 < ylast <= d.Length
    modifies d, idx
    ensures d[x0] == old(d[y0])
    ensures Moved(old(d[..]), old(idx[..]), d[..], idx[..], x0, ylast)
  {
    hide Moved;
    ghost var d0, i0 := d[..], idx[..];
    MovedSelf(d0, i0, x0, ylast);
    var x := x0;
    y := y0;
    while y < ylast
      invariant x0 <= x < y <= ylast && x - x0 == y - y0
      invariant x > x0 ==> d[x0] == d0[y0]
      invariant x == x0 ==> d[..] == d0 && idx[..] == i0
      invariant Moved(d0, i0, d[..], idx[..], x0, ylast)
    {
      ghost var d1, i1 := d[..], idx[..];
      SwapBoth(d, idx, x, y);
      SwapMoved(d1, i1, x, y, x0, ylast);
      MovedThen(d0, i0, d1, i1, d[..], idx[..], x0, ylast, x0, ylast);
      x := x + 1;
      y := y + 1;
      if y >= ylast {
        return y;
      }
      if d[x] <= d[y] {
        return y;
      }
    }
  }

  /** Either both runs are still as they were sorted, or y is known to hold the first of the rest. */
  ghost predicate Mergeable(s: seq<int>, x: nat, y: nat, r: nat, asc: bool)
    requires r <= |s|
  {
    x < y < r && ((Sorted(s, x, y, asc) && Sorted(s, y, r, asc)) || First(s, y, x, r, asc))
  }

  lemma MergeFront(s: seq<int>, l: nat, x: nat, y: nat, r: nat, asc: bool)
    requires r <= |s| && l <= x && Settled(s, l, x, r, asc) && Mergeable(s, x, y, r, asc)
    ensures Ordered(asc, s[x], s[y]) ==> Settled(s, l, x + 1, r, asc) && (x + 1 < y ==> Mergeable(s, x + 1, y, r, asc))
    ensures !Ordered(asc, s[x], s[y]) ==> First(s, y, x, r, asc)
  {
    forall k | x < k < r ensures Ordered(asc, s[x], s[y]) ==> Ordered(asc, s[x], s[k]) {
      assert k < y || k == y || k > y;
    }
  }

  lemma SettledOn(s: seq<int>, l: nat, x: nat, y: nat, r: nat, asc: bool)
    requires r <= |s| && x <= y && Settled(s, l, x, r, asc) && Settled(s, x, y, r, asc)
    ensures Settled(s, l, y, r, asc)
  {
  }

  /** The settled front stays settled when only what is behind it moves. */
  lemma SettledKept(d0: seq<int>, i0: seq<int>, d: seq<int>, i: seq<int>, l: nat, x: nat, r: nat, asc: bool)
    requires r <= |d0| && l <= x <= r && Settled(d0, l, x, r, asc) && Moved(d0, i0, d, i, x, r)
    ensures Settled(d, l, x, r, asc)
  {
    MovedWithin(d0, i0, d, i, x, r);
    forall a, b | l <= a < x && a < b < r ensures Ordered(asc, d[a], d[b]) {
      if b >= x {
        assert Among(d0, x, r, d[b]);
      }
    }
  }

  lemma FirstKept(d0: seq<int>, i0: seq<int>, d: seq<int>, i: seq<int>, x: nat, y: nat, r: nat, asc: bool)
    requires x < y < r <= |d0| && First(d0, y, x, r, asc) && Moved(d0, i0, d, i, x, r) && d[x] == d0[y]
    ensures First(d, x, x, r, asc)
  {
    MovedWithin(d0, i0, d, i, x, r);
    forall k | x <= k < r ensures Ordered(asc, d[x], d[k]) {
      assert Among(d0, x, r, d[k]);
    }
  }

  /** inplaceMerge, for two sorted neighbouring ranges. */
  method InplaceMerge(d: array<int>, idx: array<int>, l: nat, c: nat, r: nat, asc: bool)
    requires d != idx && Tracks(d[..], idx[..]) && l < c < r <= d.Length
    requires Sorted(d[..], l, c, asc) && Sorted(d[..], c, r, asc)
    modifies d, idx
    ensures Sorted(d[..], l, r, asc)
    ensures Moved(old(d[..]), old(idx[..]), d[..], idx[..], l, r)
  {
    hide Moved, Sorted, Settled, First, Mergeable;
    ghost var d0, i0 := d[..], idx[..];
    MovedSelf(d0, i0, l, r);
    MergeStart(d0, l, c, r, asc);
    var x, y := l, c;
    while x < r && y < r
      invariant l <= x <= r && Settled(d[..], l, x, r, asc)
      invariant x < r ==> x < y < r && Mergeable(d[..], x, y, r, asc)
      invariant Moved(d0, i0, d[..], idx[..], l, r)
      decreases r - x, if x < r && y < r && !Ordered(asc, d[x], d[y]) then 1 else 0
    {
      MergeFront(d[..], l, x, y, r, asc);
      ghost var x1 := x;
      if Ordered(asc, d[x], d[y]) {
        x := x + 1;
        if x < y {
          continue;
        }
        ghost var x2 := x;
        x, y := MinY(d, x, y, r, asc);
        SettledOn(d[..], l, x2, x, r, asc);
        ToMergeable(d[..], x, y, r, asc);
      } else {
        ghost var d1, i1 := d[..], idx[..];
        var ylast := MoveY(d, x, y, r, asc);
        var y' := InplaceMultiswap(d, idx, x, y, ylast);
        MovedWiden(d1, i1, d[..], idx[..], x, ylast, r);
        MovedThen(d0, i0, d1, i1, d[..], idx[..], l, r, x, r);
        SettledKept(d1, i1, d[..], idx[..], l, x, r, asc);
        FirstKept(d1, i1, d[..], idx[..], x, y, r, asc);
        x, y := MinY(d, x, y, r, asc);
        SettledOn(d[..], l, x1, x, r, asc);
        ToMergeable(d[..], x, y, r, asc);
        FirstAt(d[..], x1, y, r, asc);
      }
    }
    SettledAll(d[..], l, r, asc);
  }

  lemma MergeStart(s: seq<int>, l: nat, c: nat, r: nat, asc: bool)
    requires l < c < r <= |s| && Sorted(s, l, c, asc) && Sorted(s, c, r, asc)
    ensures Settled(s, l, l, r, asc) && Mergeable(s, l, c, r, asc)
  {
  }

  lemma ToMergeable(s: seq<int>, x: nat, y: nat, r: nat, asc: bool)
    requires r <= |s| && (x < r ==> x < y < r && First(s, y, x, r, asc))
    ensures x < r ==> Mergeable(s, x, y, r, asc)
  {
  }

  lemma FirstAt(s: seq<int>, x: nat, y: nat, r: nat, asc: bool)
    requires x < r <= |s| && First(s, x, x, r, asc)
    ensures x <= y < r ==> Ordered(asc, s[x], s[y])
  {
  }

  lemma SettledAll(s: seq<int>, l: nat, r: nat, asc: bool)
    requires r <= |s| && Settled(s, l, r, r, asc)
    ensures Sorted(s, l, r, asc)
  {
  }

  /** InplaceMergesort: sorts d between l and r and moves idx in step with it. */
  method InplaceMergesort(d: array<int>, idx: array<int>, l: nat, r: nat, asc: bool)
    requires d != idx && Tracks(d[..], idx[..]) && r <= d.Length
    modifies d, idx
    ensures Sorted(d[..], l, r, asc)
    ensures Moved(old(d[..]), old(idx[..]), d[..], idx[..], l, r)
    decreases r - l
  {
    hide Moved, Sorted;
    if l + 7 >= r {
      InplaceInsertionSort(d, idx, l, r, asc);
      return;
    }
    ghost var d0, i0 := d[..], idx[..];
    var c := (r + l) / 2 + (r + l) % 2;

    InplaceMergesort(d, idx, l, c, asc);
    ghost var d1, i1 := d[..], idx[..];

    InplaceMergesort(d, idx, c, r, asc);
    LeftStays(d0, i0, d1, i1, d[..], idx[..], l, c, r, asc);

    if asc {
      if d[c - 1] <= d[c] {
        Joined(d[..], l, c, r, asc);
        return;
      }
    } else {
      if d[c - 1] >= d[c] {
        Joined(d[..], l, c, r, asc);
        return;
      }
    }

    ghost var d2, i2 := d[..], idx[..];
    InplaceMerge(d, idx, l, c, r, asc);
    MovedThen(d0, i0, d2, i2, d[..], idx[..], l, r, l, r);
  }

  lemma LeftStays(
    d0: seq<int>, i0: seq<int>, d1: seq<int>, i1: seq<int>, d2: seq<int>, i2: seq<int>, l: nat, c: nat, r: nat, asc: bool)
    requires Moved(d0, i0, d1, i1, l, c) && Moved(d1, i1, d2, i2, c, r) && l <= c <= r <= |d0|
    requires Sorted(d1, l, c, asc)
    ensures Sorted(d2, l, c, asc) && Moved(d0, i0, d2, i2, l, r)
  {
  }

  lemma Joined(s: seq<int>, l: nat, c: nat, r: nat, asc: bool)
    requires l < c < r <= |s| && Sorted(s, l, c, asc) && Sorted(s, c, r, asc) && Ordered(asc, s[c - 1], s[c])
    ensures Sorted(s, l, r, asc)
  {
    forall i, j | l <= i < j < r ensures Ordered(asc, s[i], s[j]) {
      if i < c <= j {
        assert Ordered(asc, s[i], s[c - 1]) && Ordered(asc, s[c], s[j]);
      }
    }
  }

  // ---------------------------------------------------------------- sorting by index

  function Range(n: nat): (r: seq<int>)
    ensures |r| == n && forall i :: 0 <= i < n ==> r[i] == i
  {
    seq(n, i => i)
  }

  /** Every index once. */
  predicate IsPermutation(idx: seq<int>) {
    && (forall i :: 0 <= i < |idx| ==> 0 <= idx[i] < |idx|)
    && (forall i, j :: 0 <= i < j < |idx| ==> idx[i] != idx[j])
  }

  lemma {:induction false} CountAtMostOnce<T>(s: seq<T>, e: T)
    requires forall i, j :: 0 <= i < j < |s| ==> s[i] != s[j]
    ensures multiset(s)[e] <= 1
  {
    if s != [] {
      assert s == [s[0]] + s[1..];
      CountAtMostOnce(s[1..], e);
      if s[0] == e {
        assert e !in s[1..];
        assert multiset(s[1..])[e] == 0;
      }
    }
  }

  lemma CountTwice<T>(s: seq<T>, i: nat, j: nat)
    requires i < j < |s| && s[i] == s[j]
    ensures multiset(s)[s[i]] >= 2
  {
    assert s == s[..i] + [s[i]] + s[i + 1..j] + [s[j]] + s[j + 1..];
  }

  /** Indices that moved with the data from their own places lead back to it. */
  lemma IndicesLeadBack(d0: seq<int>, d: seq<int>, idx: seq<int>)
    requires |d| == |idx| == |d0| && multiset(Zip(d, idx)) == multiset(Zip(d0, Range(|d0|)))
    ensures IsPermutation(idx)
    ensures forall i :: 0 <= i < |d| ==> d[i] == d0[idx[i]]
  {
    var z, z0 := Zip(d, idx), Zip(d0, Range(|d0|));
    forall i | 0 <= i < |d| ensures 0 <= idx[i] < |d0| && d[i] == d0[idx[i]] {
      assert z[i] in multiset(z0);
      assert z[i] in z0;
      var j :| 0 <= j < |z0| && z0[j] == z[i];
    }
    forall i, j | 0 <= i < j < |d| ensures idx[i] != idx[j] {
      if idx[i] == idx[j] {
        assert d[i] == d0[idx[i]] == d[j];
        assert z[i] == z[j];
        CountTwice(z, i, j);
        CountAtMostOnce(z0, z[i]);
      }
    }
  }

  /** IndirectSort: sorts the data and returns, for each place, where its value came from. */
  method IndirectSort(d: array<int>, asc: bool) returns (sortedIdx: array<int>)
    modifies d
    ensures fresh(sortedIdx) && sortedIdx.Length == d.Length
    ensures Sorted(d[..], 0, d.Length, asc) && multiset(d[..]) == multiset(old(d[..]))
    ensures IsPermutation(sortedIdx[..])
    ensures forall i :: 0 <= i < d.Length ==> d[i] == old(d[..])[sortedIdx[i]]
  {
    hide Sorted;
    sortedIdx := new int[d.Length];
    for i := 0 to d.Length
      invariant forall j :: 0 <= j < i ==> sortedIdx[j] == j
      invariant d[..] == old(d[..])
    {
      sortedIdx[i] := i;
    }
    assert sortedIdx[..] == Range(d.Length);
    ghost var d0 := d[..];
    InplaceMergesort(d, sortedIdx, 0, d.Length, asc);
    IndicesLeadBack(d0, d[..], sortedIdx[..]);
    MovedWithin(d0, Range(|d0|), d[..], sortedIdx[..], 0, |d0|);
    assert d[..] == d[..][0..d.Length] && d0 == d0[0..|d0|];
  }

  /** SortByIndex: the slice with its values picked in the order of the indices; places beyond them become 0. */
  method SortByIndex(d: seq<int>, sortedIds: seq<int>) returns (newd: seq<int>)
    requires |sortedIds| <= |d| && forall i :: 0 <= i < |sortedIds| ==> 0 <= sortedIds[i] < |d|
    ensures |newd| == |d|
    ensures forall i :: 0 <= i < |d| ==> newd[i] == if i < |sortedIds| then d[sortedIds[i]] else 0
  {
    var a := new int[|d|](_ => 0);
    for x := 0 to |sortedIds|
      invariant forall i :: 0 <= i < |d| ==> a[i] == if i < x then d[sortedIds[i]] else 0
    {
      a[x] := d[sortedIds[x]];
    }
    newd := a[..];
  }

  lemma WithoutStep(d: seq<int>, v: int, x: nat)
    requires x <= |d|
    ensures d[..x] + Without(d[x..], v) ==
      if x == |d| then d
      else if d[x] == v then d[..x] + d[x + 1..]
      else d[..x + 1] + Without(d[x + 1..], v)
  {
    if x < |d| {
      assert d[x..][1..] == d[x + 1..];
      assert d[..x + 1] == d[..x] + [d[x]];
    }
  }

  /** Remove: the slice without the first occurrence of v. */
  method Remove(d: seq<int>, v: int) returns (r: seq<int>, ok: bool)
    ensures ok == (v in d) && r == Without(d, v)
  {
    hide Without;
    ghost var whole := Without(d, v);
    assert d[..0] == [] && d[0..] == d && [] + whole == whole;
    for x := 0 to |d|
      invariant v !in d[..x]
      invariant whole == d[..x] + Without(d[x..], v)
    {
      WithoutStep(d, v, x);
      if d[x] == v {
        return d[..x] + d[x + 1..], true;
      }
      assert d[..x + 1] == d[..x] + [d[x]];
    }
    WithoutStep(d, v, |d|);
    return d, false;
  }
}
