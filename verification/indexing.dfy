/** The SYCL launchers `Kernel1D`, `Kernel2D` and `Kernel3D`: how a launch
    shape becomes an nd-range, and which logical indices each lane of that
    range hands to the functor. A lane's work is modelled as the sequence of
    indices it passes to the functor, in call order. */
module Indexing {
  import opened Arith
  import opened QudaTypes

  /** What a lane reads from its `sycl::nd_item<3>`. */
  datatype NdItem = NdItem(globalId: Dim3, globalRange: Dim3, localId: Dim3)

  /** A lane of an nd-range always lies inside it. */
  predicate ValidItem(it: NdItem)
  {
    && it.globalId.x < it.globalRange.x
    && it.globalId.y < it.globalRange.y
    && it.globalId.z < it.globalRange.z
  }

  // ---------------------------------------------------------------------
  // The x axis: grid-stride, single-shot and blocked lanes
  // ---------------------------------------------------------------------

  /** `x` lies on the stride `i, i + r, i + 2r, ...`. */
  predicate OnStride(x: int, i: nat, r: nat)
    requires r > 0
  {
    i <= x && (x - i) % r == 0
  }

  lemma OnStrideStep(x: int, i: nat, r: nat)
    requires r > 0
    ensures OnStride(x, i, r) <==> x == i || OnStride(x, i + r, r)
  {
    if i <= x {
      var a: nat := x - i;
      if a < r {
        DivModUnique(a, r, 0, a);
      } else {
        var a': nat := a - r;
        assert a' == (a' / r) * r + a' % r;
        DivModUnique(a, r, a' / r + 1, a' % r);
      }
    }
  }

  lemma OnStrideStepAll(i: nat, r: nat)
    requires r > 0
    ensures forall x :: OnStride(x, i, r) <==> x == i || OnStride(x, i + r, r)
  {
    forall x
      ensures OnStride(x, i, r) <==> x == i || OnStride(x, i + r, r)
    {
      OnStrideStep(x, i, r);
    }
  }

  /** The indices a grid-stride lane with global id `i` visits in a global
      range of `r` lanes, below the logical width `w`. */
  function StrideVisits(i: nat, r: nat, w: nat): (s: seq<nat>)
    requires r > 0
    ensures StrictlyIncreasing(s)
    ensures forall x :: x in s <==> x < w && OnStride(x, i, r)
    decreases if i < w then w - i else 0
  {
    if i < w then
      var rest := StrideVisits(i + r, r, w);
      OnStrideStepAll(i, r);
      assert forall q :: 0 <= q < |rest| ==> i < rest[q] by {
        forall q | 0 <= q < |rest|
          ensures i < rest[q]
        {
          assert rest[q] in rest;
          assert OnStride(rest[q], i + r, r);
        }
      }
      [i] + rest
    else
      []
  }

  /** A grid-stride lane loops `ceil((w - i) / r)` times. */
  lemma {:induction false} StrideVisitCount(i: nat, r: nat, w: nat)
    requires r > 0 && i < w
    ensures |StrideVisits(i, r, w)| == (w - i + r - 1) / r
    decreases w - i
  {
    var c: nat := w - i - 1;
    assert |StrideVisits(i, r, w)| == 1 + |StrideVisits(i + r, r, w)|;
    assert w - i + r - 1 == c + r;
    if i + r < w {
      StrideVisitCount(i + r, r, w);
      assert w - (i + r) + r - 1 == c;
      DivAddDivisor(c, r);
    } else {
      assert |StrideVisits(i + r, r, w)| == 0;
      DivModUnique(c + r, r, 1, c);
    }
  }

  /** Among the lanes `0 .. r-1`, index `x` belongs to the stride of lane
      `x % r` and of no other lane. */
  lemma StrideOwner(l: nat, r: nat, w: nat, x: nat)
    requires l < r
    ensures x in StrideVisits(l, r, w) <==> x < w && x % r == l
  {
    if x % r == l {
      assert x == (x / r) * r + l;
      DivModUnique(x - l, r, x / r, 0);
    }
    if OnStride(x, l, r) {
      var q := (x - l) / r;
      assert x - l == q * r;
      DivModUnique(x, r, q, l);
    }
  }

  /** The at most one index a lane visits without grid stride: its own id. */
  function SingleShotVisits(i: nat, w: nat): (s: seq<nat>)
    ensures |s| <= 1
    ensures forall x :: x in s <==> x == i && i < w
  {
    if i < w then [i] else []
  }

  /** Start of the slice lane `t` of `nid` lanes owns in blocked mode. */
  function BlockedStart(t: nat, nid: nat, n: nat): nat
    requires nid > 0
  {
    (t * n) / nid
  }

  lemma BlockedStartMono(t: nat, nid: nat, n: nat)
    requires nid > 0
    ensures BlockedStart(t, nid, n) <= BlockedStart(t + 1, nid, n)
  {
    DivMonoNumerator(t * n, (t + 1) * n, nid);
  }

  lemma BlockedStartEnds(nid: nat, n: nat)
    requires nid > 0
    ensures BlockedStart(0, nid, n) == 0
    ensures BlockedStart(nid, nid, n) == n
  {
    DivModUnique(nid * n, nid, n, 0);
  }

  /** Each blocked slice holds `n / nid` or `n / nid + 1` indices. */
  lemma BlockedSliceLength(t: nat, nid: nat, n: nat)
    requires nid > 0
    ensures var len := BlockedStart(t + 1, nid, n) - BlockedStart(t, nid, n);
            len == n / nid || len == n / nid + 1
  {
    BlockedStartMono(t, nid, n);
    assert (t + 1) * n == t * n + n;
    DivOfSum(t * n, n, nid);
  }

  /** The contiguous slice `[t*n/nid, (t+1)*n/nid)` of a blocked lane. */
  function BlockedSlice(t: nat, nid: nat, n: nat): (s: seq<nat>)
    requires nid > 0
    ensures StrictlyIncreasing(s)
    ensures forall x :: x in s <==> BlockedStart(t, nid, n) <= x < BlockedStart(t + 1, nid, n)
  {
    var s := Range(BlockedStart(t, nid, n), BlockedStart(t + 1, nid, n));
    assert forall x :: x in s <==> BlockedStart(t, nid, n) <= x < BlockedStart(t + 1, nid, n) by {
      forall x: nat { RangeMembership(BlockedStart(t, nid, n), BlockedStart(t + 1, nid, n), x); }
    }
    s
  }

  /** `Kernel1DImpl`: the x indices a lane hands to the functor. With grid
      stride the lane owns every index congruent to its id modulo the global
      range; without it, at most its own id. */
  function Kernel1DImpl(gridStride: bool, it: NdItem, threadsX: nat): (s: seq<nat>)
    requires ValidItem(it)
    ensures StrictlyIncreasing(s)
    ensures gridStride ==> forall x: nat :: x in s <==> x < threadsX && x % it.globalRange.x == it.globalId.x
    ensures !gridStride ==> |s| <= 1 && forall x :: x in s <==> x == it.globalId.x && x < threadsX
  {
    if gridStride then
      var s := StrideVisits(it.globalId.x, it.globalRange.x, threadsX);
      assert forall x: nat :: x in s <==> x < threadsX && x % it.globalRange.x == it.globalId.x by {
        forall x: nat { StrideOwner(it.globalId.x, it.globalRange.x, threadsX, x); }
      }
      s
    else
      SingleShotVisits(it.globalId.x, threadsX)
  }

  /** `Kernel1DImplB`: a blocked lane visits its own contiguous slice, whose
      length differs from `n / nid` by at most one. */
  function Kernel1DImplB(it: NdItem, threadsX: nat): (s: seq<nat>)
    requires ValidItem(it)
    ensures StrictlyIncreasing(s)
    ensures |s| == threadsX / it.globalRange.x || |s| == threadsX / it.globalRange.x + 1
    ensures forall x :: x in s <==> BlockedStart(it.globalId.x, it.globalRange.x, threadsX) <= x
                                    < BlockedStart(it.globalId.x + 1, it.globalRange.x, threadsX)
  {
    BlockedSliceLength(it.globalId.x, it.globalRange.x, threadsX);
    BlockedStartMono(it.globalId.x, it.globalRange.x, threadsX);
    BlockedSlice(it.globalId.x, it.globalRange.x, threadsX)
  }

  /** The lane body the build selects: `QUDA_THREADS_BLOCKED` picks the
      blocked variant, which ignores the grid-stride flag. */
  function Kernel1DLane(blocked: bool, gridStride: bool, it: NdItem, threadsX: nat): (s: seq<nat>)
    requires ValidItem(it)
    ensures StrictlyIncreasing(s)
    ensures blocked ==> forall x :: x in s <==> BlockedStart(it.globalId.x, it.globalRange.x, threadsX) <= x
                                                < BlockedStart(it.globalId.x + 1, it.globalRange.x, threadsX)
    ensures !blocked && gridStride ==> forall x: nat :: x in s <==> x < threadsX && x % it.globalRange.x == it.globalId.x
    ensures !blocked && !gridStride ==> |s| <= 1 && forall x :: x in s <==> x == it.globalId.x && x < threadsX
  {
    if blocked then Kernel1DImplB(it, threadsX) else Kernel1DImpl(gridStride, it, threadsX)
  }

  /** The item of lane `l` in a one-dimensional range of `r` lanes. */
  function Item1D(l: nat, r: nat): NdItem
  {
    NdItem(Dim3(l, 0, 0), Dim3(r, 1, 1), Dim3(0, 0, 0))
  }

  /** What every lane of a one-dimensional range of `r` lanes visits,
      indexed by lane id. */
  function Lanes1D(blocked: bool, gridStride: bool, r: nat, w: nat): (ls: seq<seq<nat>>)
    ensures |ls| == r
  {
    seq(r, l requires 0 <= l < r => Kernel1DLane(blocked, gridStride, Item1D(l, r), w))
  }

  /** Grid stride: over any positive number of lanes, every index below the
      width is visited exactly once. */
  lemma {:induction false} GridStrideExactlyOnce(r: nat, w: nat)
    requires r > 0
    ensures ExactlyOnce(Flatten(Lanes1D(false, true, r, w)), w)
  {
    var ls := Lanes1D(false, true, r, w);
    forall k | 0 <= k < r
      ensures NoDup(ls[k])
    {
      StrictlyIncreasingNoDup(ls[k]);
    }
    forall k1, k2 | 0 <= k1 < k2 < r
      ensures Disjoint(ls[k1], ls[k2])
    {
    }
    FlattenNoDup(ls);
    forall x: nat
      ensures x in Flatten(ls) <==> x < w
    {
      FlattenMembership(ls, x);
      if x in Flatten(ls) {
        var k :| 0 <= k < r && x in ls[k];
        assert ls[k] == Kernel1DImpl(true, Item1D(k, r), w);
      }
      if x < w {
        assert ls[x % r] == Kernel1DImpl(true, Item1D(x % r, r), w);
        assert x in ls[x % r];
      }
    }
  }

  /** Blocked mode: the slices of lanes `lo .. nid-1` glue into the index
      interval from lane `lo`'s start to `n`. */
  lemma {:induction false} BlockedSlicesAbut(nid: nat, n: nat, lo: nat)
    requires 0 < nid && lo <= nid
    ensures Flatten(Lanes1D(true, false, nid, n)[..lo]) == Range(0, BlockedStart(lo, nid, n))
    decreases lo
  {
    var ls := Lanes1D(true, false, nid, n);
    if lo == 0 {
      BlockedStartEnds(nid, n);
    } else {
      BlockedSlicesAbut(nid, n, lo - 1);
      assert ls[..lo][..lo - 1] == ls[..lo - 1];
      BlockedStartMono(lo - 1, nid, n);
      BlockedStartEnds(nid, n);
      DivMonoNumerator(0, (lo - 1) * n, nid);
      RangeAppend(0, BlockedStart(lo - 1, nid, n), BlockedStart(lo, nid, n));
    }
  }

  /** Blocked mode: the slices of all lanes, in lane order, are exactly
      `0, 1, ..., n-1`. */
  lemma BlockedPartition(nid: nat, n: nat)
    requires nid > 0
    ensures Flatten(Lanes1D(true, false, nid, n)) == Range(0, n)
    ensures ExactlyOnce(Flatten(Lanes1D(true, false, nid, n)), n)
  {
    var ls := Lanes1D(true, false, nid, n);
    BlockedSlicesAbut(nid, n, nid);
    assert ls[..nid] == ls;
    BlockedStartEnds(nid, n);
    RangeExactlyOnce(n);
  }

  /** Without grid stride the lanes cover `[0, min(r, w))`: every index is
      visited exactly once precisely when there are at least `w` lanes. */
  lemma {:induction false} SingleShotCoverage(r: nat, w: nat, lo: nat)
    requires lo <= r
    ensures Flatten(Lanes1D(false, false, r, w)[..lo]) == Range(0, if lo < w then lo else w)
    decreases lo
  {
    var ls := Lanes1D(false, false, r, w);
    if lo > 0 {
      SingleShotCoverage(r, w, lo - 1);
      assert ls[..lo][..lo - 1] == ls[..lo - 1];
      assert Flatten(ls[..lo]) == Flatten(ls[..lo - 1]) + ls[lo - 1];
      assert ls[lo - 1] == SingleShotVisits(lo - 1, w);
      if lo - 1 < w {
        assert ls[lo - 1] == [lo - 1] == Range(lo - 1, lo);
        RangeAppend(0, lo - 1, lo);
      } else {
        assert ls[lo - 1] == [];
      }
    }
  }

  lemma SingleShotExactlyOnce(r: nat, w: nat)
    ensures ExactlyOnce(Flatten(Lanes1D(false, false, r, w)), w) <==> r >= w
  {
    var ls := Lanes1D(false, false, r, w);
    SingleShotCoverage(r, w, r);
    assert ls[..r] == ls;
    var m := if r < w then r else w;
    RangeExactlyOnce(m);
    if r < w {
      RangeMembership(0, m, r);
    }
  }

  /** The x-axis coverage the launcher guarantees in each mode. */
  lemma Lanes1DExactlyOnce(blocked: bool, gridStride: bool, r: nat, w: nat)
    requires r > 0 && (blocked || gridStride || r >= w)
    ensures ExactlyOnce(Flatten(Lanes1D(blocked, gridStride, r, w)), w)
  {
    if blocked {
      assert Lanes1D(blocked, gridStride, r, w) == Lanes1D(true, false, r, w);
      BlockedPartition(r, w);
    } else if gridStride {
      GridStrideExactlyOnce(r, w);
    } else {
      SingleShotExactlyOnce(r, w);
    }
  }

  // ---------------------------------------------------------------------
  // The y and z axes: clipping
  // ---------------------------------------------------------------------

  /** Pair every element of `s` with the row coordinate `j`. */
  function Tag<T>(s: seq<T>, j: nat): (r: seq<(T, nat)>)
    ensures |r| == |s|
    ensures forall k :: 0 <= k < |s| ==> r[k] == (s[k], j)
  {
    seq(|s|, k requires 0 <= k < |s| => (s[k], j))
  }

  /** A lane whose row `j` is at or beyond the height `h` does nothing;
      otherwise it does its x work in row `j`. */
  function Clip<T(==,!new)>(s: seq<T>, j: nat, h: nat): (r: seq<(T, nat)>)
    ensures forall p :: p in r <==> j < h && p.1 == j && p.0 in s
  {
    var r := if j < h then Tag(s, j) else [];
    assert forall p :: p in r <==> j < h && p.1 == j && p.0 in s by {
      forall p
        ensures p in r <==> j < h && p.1 == j && p.0 in s
      {
        if j < h && p.1 == j && p.0 in s {
          var k :| 0 <= k < |s| && s[k] == p.0;
          assert r[k] == p;
        }
      }
    }
    r
  }

  lemma ClipNoDup<T(!new)>(s: seq<T>, j: nat, h: nat)
    requires NoDup(s)
    ensures NoDup(Clip(s, j, h))
  {
    var r := Clip(s, j, h);
    if j < h {
      forall p, q | 0 <= p < q < |r|
        ensures r[p] != r[q]
      {
        assert r[p] == (s[p], j) && r[q] == (s[q], j);
      }
    }
  }

  /** The lanes of one row, each clipped against row `j`. */
  function ClipEach<T(==,!new)>(ss: seq<seq<T>>, j: nat, h: nat): (cs: seq<seq<(T, nat)>>)
    ensures |cs| == |ss|
    ensures forall l :: 0 <= l < |ss| ==> cs[l] == Clip(ss[l], j, h)
  {
    seq(|ss|, l requires 0 <= l < |ss| => Clip(ss[l], j, h))
  }

  /** Rows `0 .. ry-1` of a launch whose rows all repeat the x work `f`. */
  function ClippedRows<T(==,!new)>(f: seq<T>, ry: nat, h: nat): (rows: seq<seq<(T, nat)>>)
    ensures |rows| == ry
    ensures forall j :: 0 <= j < ry ==> rows[j] == Clip(f, j, h)
  {
    seq(ry, j requires 0 <= j < ry => Clip(f, j, h))
  }

  /** Clipping a concatenation clips each part. */
  lemma ClipAppend<T(!new)>(a: seq<T>, b: seq<T>, j: nat, h: nat)
    ensures Clip(a + b, j, h) == Clip(a, j, h) + Clip(b, j, h)
  {
    if j < h {
      assert Tag(a + b, j) == Tag(a, j) + Tag(b, j);
    }
  }

  /** Clipping commutes with concatenating the lanes of a row. */
  lemma {:induction false} FlattenClip<T(!new)>(ss: seq<seq<T>>, j: nat, h: nat)
    ensures Flatten(ClipEach(ss, j, h)) == Clip(Flatten(ss), j, h)
    decreases |ss|
  {
    if |ss| > 0 {
      var n := |ss| - 1;
      var init := ss[..n];
      FlattenClip(init, j, h);
      var cs := ClipEach(ss, j, h);
      assert cs[..n] == ClipEach(init, j, h);
      ClipAppend(Flatten(init), ss[n], j, h);
    }
  }

  /** Rows `0 .. ry-1` of a clipped launch over a repeat-free x sequence `f`
      visit every (x, row) with `x` in `f` and `row < h` exactly once, as
      long as the launch has at least `h` rows. */
  lemma {:induction false} RowsExactlyOnce<T(!new)>(f: seq<T>, ry: nat, h: nat)
    requires NoDup(f) && h <= ry
    ensures NoDup(Flatten(ClippedRows(f, ry, h)))
    ensures forall p: (T, nat) :: p in Flatten(ClippedRows(f, ry, h)) <==> p.0 in f && p.1 < h
  {
    var rows: seq<seq<(T, nat)>> := ClippedRows(f, ry, h);
    forall j | 0 <= j < ry
      ensures NoDup(rows[j])
    {
      ClipNoDup(f, j, h);
    }
    forall j1, j2 | 0 <= j1 < j2 < ry
      ensures Disjoint(rows[j1], rows[j2])
    {
      assert rows[j1] == Clip(f, j1, h) && rows[j2] == Clip(f, j2, h);
    }
    FlattenNoDup(rows);
    forall p: (T, nat)
      ensures p in Flatten(rows) <==> p.0 in f && p.1 < h
    {
      FlattenMembership(rows, p);
      if p.0 in f && p.1 < h {
        assert p in rows[p.1];
      }
    }
  }

  /** Every index pair of a `w` by `h` logical space occurs exactly once. */
  predicate ExactlyOnce2D(s: seq<(nat, nat)>, w: nat, h: nat)
  {
    && NoDup(s)
    && (forall p :: p in s ==> p.0 < w && p.1 < h)
    && (forall x: nat, y: nat :: x < w && y < h ==> (x, y) in s)
  }

  /** Every index triple of a `w` by `h` by `d` logical space occurs exactly
      once; a triple is written `((i, j), k)`. */
  predicate ExactlyOnce3D(s: seq<((nat, nat), nat)>, w: nat, h: nat, d: nat)
  {
    && NoDup(s)
    && (forall p :: p in s ==> p.0.0 < w && p.0.1 < h && p.1 < d)
    && (forall x: nat, y: nat, z: nat :: x < w && y < h && z < d ==> ((x, y), z) in s)
  }

  /** `Kernel2DImpl` / `Kernel2DImplB`: a lane with `j >= threads.y` never
      calls the functor; otherwise it calls it at `(i, j)` for each of its
      x indices. */
  function Kernel2DLane(blocked: bool, gridStride: bool, it: NdItem, threads: Dim3): (s: seq<(nat, nat)>)
    requires ValidItem(it)
    ensures it.globalId.y >= threads.y ==> s == []
    ensures forall p :: p in s <==> p.1 == it.globalId.y < threads.y
                                    && p.0 in Kernel1DLane(blocked, gridStride, it, threads.x)
  {
    Clip(Kernel1DLane(blocked, gridStride, it, threads.x), it.globalId.y, threads.y)
  }

  /** `Kernel3DImpl` / `Kernel3DImplB`: the y test, then the z test, then the
      x work at `(i, j, k)`. */
  function Kernel3DLane(blocked: bool, gridStride: bool, it: NdItem, threads: Dim3): (s: seq<((nat, nat), nat)>)
    requires ValidItem(it)
    ensures it.globalId.y >= threads.y || it.globalId.z >= threads.z ==> s == []
    ensures forall p :: p in s <==> p.0.1 == it.globalId.y < threads.y && p.1 == it.globalId.z < threads.z
                                    && p.0.0 in Kernel1DLane(blocked, gridStride, it, threads.x)
  {
    Clip(Kernel2DLane(blocked, gridStride, it, threads), it.globalId.z, threads.z)
  }

  // ---------------------------------------------------------------------
  // The launchers
  // ---------------------------------------------------------------------

  /** The launch shape the tuner chose. */
  datatype TuneParam = TuneParam(grid: Dim3, block: Dim3, sharedBytes: nat)

  /** The `sycl::nd_range<3>` a launcher submits. */
  datatype NdRange = NdRange(global: Dim3, local: Dim3)

  /** What `q.submit` does with the kernel: accept it or throw a
      `sycl::exception` synchronously. */
  datatype Submission = Accepted | Threw

  datatype Launch1D = Launch1D(range: NdRange, status: QudaStatus, visited: seq<nat>)
  datatype Launch2D = Launch2D(range: NdRange, status: QudaStatus, visited: seq<(nat, nat)>)
  datatype Launch3D = Launch3D(range: NdRange, status: QudaStatus, visited: seq<((nat, nat), nat)>)

  /** The item of the lane with global id `g` in the nd-range `nd`. */
  function ItemAt(g: Dim3, nd: NdRange): (it: NdItem)
    ensures it.globalId == g && it.globalRange == nd.global
  {
    NdItem(g, nd.global, Dim3(if nd.local.x > 0 then g.x % nd.local.x else 0,
                              if nd.local.y > 0 then g.y % nd.local.y else 0,
                              if nd.local.z > 0 then g.z % nd.local.z else 0))
  }

  /** The x work of a lane depends only on its x coordinates. */
  lemma Kernel1DLaneXOnly(blocked: bool, gridStride: bool, it1: NdItem, it2: NdItem, w: nat)
    requires ValidItem(it1) && ValidItem(it2)
    requires it1.globalId.x == it2.globalId.x && it1.globalRange.x == it2.globalRange.x
    ensures Kernel1DLane(blocked, gridStride, it1, w) == Kernel1DLane(blocked, gridStride, it2, w)
  {
  }

  /** The x work of every lane of row `(j, k)` of an nd-range. */
  function RowLanes(blocked: bool, gridStride: bool, nd: NdRange, j: nat, k: nat, w: nat): (ls: seq<seq<nat>>)
    requires j < nd.global.y && k < nd.global.z
    ensures ls == Lanes1D(blocked, gridStride, nd.global.x, w)
  {
    var ls := seq(nd.global.x, l requires 0 <= l < nd.global.x =>
      Kernel1DLane(blocked, gridStride, ItemAt(Dim3(l, j, k), nd), w));
    assert forall l :: 0 <= l < nd.global.x ==> ls[l] == Lanes1D(blocked, gridStride, nd.global.x, w)[l] by {
      forall l | 0 <= l < nd.global.x
        ensures ls[l] == Lanes1D(blocked, gridStride, nd.global.x, w)[l]
      {
        Kernel1DLaneXOnly(blocked, gridStride, ItemAt(Dim3(l, j, k), nd), Item1D(l, nd.global.x), w);
      }
    }
    ls
  }

  /** `Kernel1D`: submits `grid.x * block.x` lanes in blocks of `block.x`;
      reports `QUDA_ERROR` exactly when submission throws. An accepted launch
      visits every index below `threads.x` exactly once when it strides or
      is blocked, and otherwise when it has at least `threads.x` lanes. */
  function Kernel1D(blocked: bool, gridStride: bool, tp: TuneParam, threads: Dim3, submit: Submission): (r: Launch1D)
    ensures r.range.global == Dim3(tp.grid.x * tp.block.x, 1, 1) && r.range.local == Dim3(tp.block.x, 1, 1)
    ensures r.status == QudaError <==> submit == Threw
    ensures r.status == QudaError ==> r.visited == []
    ensures r.status == QudaSuccess && r.range.global.x > 0 && (blocked || gridStride || r.range.global.x >= threads.x)
            ==> ExactlyOnce(r.visited, threads.x)
  {
    var nd := NdRange(Dim3(tp.grid.x * tp.block.x, 1, 1), Dim3(tp.block.x, 1, 1));
    if submit == Threw then Launch1D(nd, QudaError, [])
    else
      var visited := Flatten(RowLanes(blocked, gridStride, nd, 0, 0, threads.x));
      assert nd.global.x > 0 && (blocked || gridStride || nd.global.x >= threads.x)
             ==> ExactlyOnce(visited, threads.x) by {
        if nd.global.x > 0 && (blocked || gridStride || nd.global.x >= threads.x) {
          Lanes1DExactlyOnce(blocked, gridStride, nd.global.x, threads.x);
        }
      }
      Launch1D(nd, QudaSuccess, visited)
  }

  /** What the lanes of row `j` of a two-dimensional nd-range do. */
  function Row2D(blocked: bool, gridStride: bool, nd: NdRange, threads: Dim3, j: nat): (ls: seq<seq<(nat, nat)>>)
    requires nd.global.z > 0 && j < nd.global.y
    ensures ls == ClipEach(Lanes1D(blocked, gridStride, nd.global.x, threads.x), j, threads.y)
  {
    var ls := seq(nd.global.x, l requires 0 <= l < nd.global.x =>
      Kernel2DLane(blocked, gridStride, ItemAt(Dim3(l, j, 0), nd), threads));
    assert RowLanes(blocked, gridStride, nd, j, 0, threads.x) == Lanes1D(blocked, gridStride, nd.global.x, threads.x);
    ls
  }

  /** The rows of a two-dimensional nd-range, in order. */
  function Rows2D(blocked: bool, gridStride: bool, nd: NdRange, threads: Dim3): (rows: seq<seq<(nat, nat)>>)
    requires nd.global.z > 0
    ensures rows == ClippedRows(Flatten(Lanes1D(blocked, gridStride, nd.global.x, threads.x)), nd.global.y, threads.y)
  {
    var rows := seq(nd.global.y, j requires 0 <= j < nd.global.y => Flatten(Row2D(blocked, gridStride, nd, threads, j)));
    assert forall j :: 0 <= j < nd.global.y ==>
      rows[j] == Clip(Flatten(Lanes1D(blocked, gridStride, nd.global.x, threads.x)), j, threads.y) by {
      forall j | 0 <= j < nd.global.y
        ensures rows[j] == Clip(Flatten(Lanes1D(blocked, gridStride, nd.global.x, threads.x)), j, threads.y)
      {
        FlattenClip(Lanes1D(blocked, gridStride, nd.global.x, threads.x), j, threads.y);
      }
    }
    rows
  }

  /** A two-dimensional launch with enough rows visits every logical pair
      exactly once, in every mode that covers the x axis. */
  lemma {:induction false} Visited2DExactlyOnce(blocked: bool, gridStride: bool, nd: NdRange, threads: Dim3)
    requires nd.global.z > 0 && nd.global.x > 0 && threads.y <= nd.global.y
    requires blocked || gridStride || nd.global.x >= threads.x
    ensures ExactlyOnce2D(Flatten(Rows2D(blocked, gridStride, nd, threads)), threads.x, threads.y)
  {
    var f := Flatten(Lanes1D(blocked, gridStride, nd.global.x, threads.x));
    Lanes1DExactlyOnce(blocked, gridStride, nd.global.x, threads.x);
    RowsExactlyOnce(f, nd.global.y, threads.y);
    forall x: nat, y: nat | x < threads.x && y < threads.y
      ensures (x, y) in Flatten(Rows2D(blocked, gridStride, nd, threads))
    {
      assert (x, y).0 in f;
    }
  }

  /** `Kernel2D`: the nd-range is `(grid.x*block.x, grid.y*block.y, 1)` in
      blocks of `(block.x, block.y, 1)`; the status is `QUDA_ERROR` exactly
      when submission throws; an accepted launch with at least `threads.y`
      rows covers the logical rectangle exactly once. */
  function Kernel2D(blocked: bool, gridStride: bool, tp: TuneParam, threads: Dim3, submit: Submission): (r: Launch2D)
    ensures r.range.global == Dim3(tp.grid.x * tp.block.x, tp.grid.y * tp.block.y, 1)
    ensures r.range.local == Dim3(tp.block.x, tp.block.y, 1)
    ensures r.status == QudaError <==> submit == Threw
    ensures r.status == QudaError ==> r.visited == []
    ensures r.status == QudaSuccess && r.range.global.x > 0 && threads.y <= r.range.global.y
            && (blocked || gridStride || r.range.global.x >= threads.x)
            ==> ExactlyOnce2D(r.visited, threads.x, threads.y)
  {
    var nd := NdRange(Dim3(tp.grid.x * tp.block.x, tp.grid.y * tp.block.y, 1), Dim3(tp.block.x, tp.block.y, 1));
    if submit == Threw then Launch2D(nd, QudaError, [])
    else
      var visited := Flatten(Rows2D(blocked, gridStride, nd, threads));
      assert nd.global.x > 0 && threads.y <= nd.global.y && (blocked || gridStride || nd.global.x >= threads.x)
             ==> ExactlyOnce2D(visited, threads.x, threads.y) by {
        if nd.global.x > 0 && threads.y <= nd.global.y && (blocked || gridStride || nd.global.x >= threads.x) {
          Visited2DExactlyOnce(blocked, gridStride, nd, threads);
        }
      }
      Launch2D(nd, QudaSuccess, visited)
  }

  /** What the lanes of row `j` of plane `k` of a three-dimensional nd-range do. */
  function Row3D(blocked: bool, gridStride: bool, nd: NdRange, threads: Dim3, j: nat, k: nat)
    : (ls: seq<seq<((nat, nat), nat)>>)
    requires j < nd.global.y && k < nd.global.z
    ensures ls == ClipEach(ClipEach(Lanes1D(blocked, gridStride, nd.global.x, threads.x), j, threads.y), k, threads.z)
  {
    var ls := seq(nd.global.x, l requires 0 <= l < nd.global.x =>
      Kernel3DLane(blocked, gridStride, ItemAt(Dim3(l, j, k), nd), threads));
    assert RowLanes(blocked, gridStride, nd, j, k, threads.x) == Lanes1D(blocked, gridStride, nd.global.x, threads.x);
    ls
  }

  /** The rows of plane `k` of a three-dimensional nd-range. */
  function Plane3D(blocked: bool, gridStride: bool, nd: NdRange, threads: Dim3, k: nat)
    : (rows: seq<seq<((nat, nat), nat)>>)
    requires k < nd.global.z
    ensures rows == ClipEach(ClippedRows(Flatten(Lanes1D(blocked, gridStride, nd.global.x, threads.x)),
                                         nd.global.y, threads.y), k, threads.z)
  {
    var ls := Lanes1D(blocked, gridStride, nd.global.x, threads.x);
    var rows := seq(nd.global.y, j requires 0 <= j < nd.global.y => Flatten(Row3D(blocked, gridStride, nd, threads, j, k)));
    assert forall j :: 0 <= j < nd.global.y ==> rows[j] == Clip(Clip(Flatten(ls), j, threads.y), k, threads.z) by {
      forall j | 0 <= j < nd.global.y
        ensures rows[j] == Clip(Clip(Flatten(ls), j, threads.y), k, threads.z)
      {
        FlattenClip(ClipEach(ls, j, threads.y), k, threads.z);
        FlattenClip(ls, j, threads.y);
      }
    }
    rows
  }

  /** The planes of a three-dimensional nd-range, in order. */
  function Planes3D(blocked: bool, gridStride: bool, nd: NdRange, threads: Dim3): (planes: seq<seq<((nat, nat), nat)>>)
    ensures planes == ClippedRows(Flatten(ClippedRows(Flatten(Lanes1D(blocked, gridStride, nd.global.x, threads.x)),
                                                      nd.global.y, threads.y)), nd.global.z, threads.z)
  {
    var g := Flatten(ClippedRows(Flatten(Lanes1D(blocked, gridStride, nd.global.x, threads.x)), nd.global.y, threads.y));
    var planes := seq(nd.global.z, k requires 0 <= k < nd.global.z => Flatten(Plane3D(blocked, gridStride, nd, threads, k)));
    assert forall k :: 0 <= k < nd.global.z ==> planes[k] == Clip(g, k, threads.z) by {
      forall k | 0 <= k < nd.global.z
        ensures planes[k] == Clip(g, k, threads.z)
      {
        FlattenClip(ClippedRows(Flatten(Lanes1D(blocked, gridStride, nd.global.x, threads.x)), nd.global.y, threads.y),
                    k, threads.z);
      }
    }
    planes
  }

  /** A three-dimensional launch with enough rows and planes visits every
      logical triple exactly once, in every mode that covers the x axis. */
  lemma {:induction false} Visited3DExactlyOnce(blocked: bool, gridStride: bool, nd: NdRange, threads: Dim3)
    requires nd.global.x > 0 && threads.y <= nd.global.y && threads.z <= nd.global.z
    requires blocked || gridStride || nd.global.x >= threads.x
    ensures ExactlyOnce3D(Flatten(Planes3D(blocked, gridStride, nd, threads)), threads.x, threads.y, threads.z)
  {
    var f := Flatten(Lanes1D(blocked, gridStride, nd.global.x, threads.x));
    Lanes1DExactlyOnce(blocked, gridStride, nd.global.x, threads.x);
    var g := Flatten(ClippedRows(f, nd.global.y, threads.y));
    RowsExactlyOnce(f, nd.global.y, threads.y);
    RowsExactlyOnce(g, nd.global.z, threads.z);
    var v := Flatten(Planes3D(blocked, gridStride, nd, threads));
    forall x: nat, y: nat, z: nat | x < threads.x && y < threads.y && z < threads.z
      ensures ((x, y), z) in v
    {
      assert ((x, y), z).0.0 in f;
      assert ((x, y), z).0 in g;
    }
  }

  /** `Kernel3D`: the nd-range is the grid times the block in every
      dimension; the status is `QUDA_ERROR` exactly when submission throws;
      an accepted launch with enough rows and planes covers the logical box
      exactly once. Both argument-passing overloads run the same lane body. */
  function Kernel3D(blocked: bool, gridStride: bool, tp: TuneParam, threads: Dim3, submit: Submission): (r: Launch3D)
    ensures r.range.global == Dim3(tp.grid.x * tp.block.x, tp.grid.y * tp.block.y, tp.grid.z * tp.block.z)
    ensures r.range.local == tp.block
    ensures r.status == QudaError <==> submit == Threw
    ensures r.status == QudaError ==> r.visited == []
    ensures r.status == QudaSuccess && r.range.global.x > 0
            && threads.y <= r.range.global.y && threads.z <= r.range.global.z
            && (blocked || gridStride || r.range.global.x >= threads.x)
            ==> ExactlyOnce3D(r.visited, threads.x, threads.y, threads.z)
  {
    var nd := NdRange(Dim3(tp.grid.x * tp.block.x, tp.grid.y * tp.block.y, tp.grid.z * tp.block.z),
                      Dim3(tp.block.x, tp.block.y, tp.block.z));
    if submit == Threw then Launch3D(nd, QudaError, [])
    else
      var visited := Flatten(Planes3D(blocked, gridStride, nd, threads));
      assert nd.global.x > 0 && threads.y <= nd.global.y && threads.z <= nd.global.z
             && (blocked || gridStride || nd.global.x >= threads.x)
             ==> ExactlyOnce3D(visited, threads.x, threads.y, threads.z) by {
        if nd.global.x > 0 && threads.y <= nd.global.y && threads.z <= nd.global.z
           && (blocked || gridStride || nd.global.x >= threads.x) {
          Visited3DExactlyOnce(blocked, gridStride, nd, threads);
        }
      }
      Launch3D(nd, QudaSuccess, visited)
  }
}
