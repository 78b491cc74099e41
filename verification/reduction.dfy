/** The SYCL reduction front-end `Reduction2D` / `MultiReduction`: where the
    result is seeded, what each lane folds into its partial value, which lanes
    are clipped, and what the launch reports. The transformer's step
    `value = t(value, idx, key)` is modelled as `op(value, e(idx, key))`: an
    element function `e` combined into the running value by the reduction
    operator `op`. Values are integers; `op` is any function, and the
    theorems about the combined result assume it is associative and
    commutative with `arg.init()` as its identity. */
module Reduction {
  import opened Arith
  import opened QudaTypes
  import opened Indexing

  /** `op` is associative and commutative and `id` is its identity. */
  ghost predicate IsCommMonoid(op: (int, int) -> int, id: int)
  {
    && (forall a, b :: op(a, b) == op(b, a))
    && (forall a, b, c :: op(op(a, b), c) == op(a, op(b, c)))
    && (forall a :: op(id, a) == a)
  }

  /** `op` is integer addition. */
  ghost predicate IsAddition(op: (int, int) -> int)
  {
    forall a, b :: op(a, b) == a + b
  }

  /** Addition, the combiner `sycl::ONEAPI::plus` of the reduction object. */
  function Add(a: int, b: int): int
  {
    a + b
  }

  lemma AdditionIsCommMonoid(op: (int, int) -> int)
    requires IsAddition(op)
    ensures IsCommMonoid(op, 0)
  {
  }

  // ---------------------------------------------------------------------
  // Folds
  // ---------------------------------------------------------------------

  /** Start from `v` and combine `f(x, key)` for every `x` of `s`, in order. */
  function Fold<X, K>(op: (int, int) -> int, v: int, f: (X, K) -> int, key: K, s: seq<X>): int
    decreases |s|
  {
    if |s| == 0 then v else Fold(op, op(v, f(s[0], key)), f, key, s[1..])
  }

  /** A value taken as it is; `Combine` folds a sequence of values. */
  function Pick(p: int, unused: nat): int
  {
    p
  }

  /** Combining partial values one after the other into `v`. */
  function Combine(op: (int, int) -> int, v: int, ps: seq<int>): int
  {
    Fold(op, v, Pick, 0, ps)
  }

  /** The fold of each part, in order. */
  function FoldEach<X, K>(op: (int, int) -> int, v: int, f: (X, K) -> int, key: K, ss: seq<seq<X>>): (ps: seq<int>)
    ensures |ps| == |ss|
    ensures forall l :: 0 <= l < |ss| ==> ps[l] == Fold(op, v, f, key, ss[l])
  {
    seq(|ss|, l requires 0 <= l < |ss| => Fold(op, v, f, key, ss[l]))
  }

  /** Two operators that agree everywhere fold alike. */
  lemma {:induction false} FoldSameOp<X, K>(op1: (int, int) -> int, op2: (int, int) -> int, v: int,
                                             f: (X, K) -> int, key: K, s: seq<X>)
    requires forall a, b :: op1(a, b) == op2(a, b)
    ensures Fold(op1, v, f, key, s) == Fold(op2, v, f, key, s)
    decreases |s|
  {
    if |s| > 0 {
      FoldSameOp(op1, op2, op1(v, f(s[0], key)), f, key, s[1..]);
    }
  }

  /** Folding a concatenation continues from where the first part ended. */
  lemma {:induction false} FoldAppend<X, K>(op: (int, int) -> int, v: int, f: (X, K) -> int, key: K,
                                             a: seq<X>, b: seq<X>)
    ensures Fold(op, v, f, key, a + b) == Fold(op, Fold(op, v, f, key, a), f, key, b)
    decreases |a|
  {
    if |a| > 0 {
      assert (a + b)[0] == a[0] && (a + b)[1..] == a[1..] + b;
      var v' := op(v, f(a[0], key));
      FoldAppend(op, v', f, key, a[1..], b);
    } else {
      assert a + b == b;
    }
  }

  /** Under a commutative monoid, a fold started from `v` is `v` combined
      with the fold started from the identity. */
  lemma {:induction false} FoldShift<X, K>(op: (int, int) -> int, id: int, v: int, f: (X, K) -> int, key: K, s: seq<X>)
    requires IsCommMonoid(op, id)
    ensures Fold(op, v, f, key, s) == op(v, Fold(op, id, f, key, s))
    decreases |s|
  {
    if |s| == 0 {
      assert op(v, id) == op(id, v);
    } else {
      var x := f(s[0], key);
      FoldShift(op, id, op(v, x), f, key, s[1..]);
      FoldShift(op, id, x, f, key, s[1..]);
      assert op(id, x) == x;
    }
  }

  /** Under a commutative monoid, an element folded between two parts can be
      taken out in front. */
  lemma FoldAround<X, K>(op: (int, int) -> int, id: int, f: (X, K) -> int, key: K,
                         pre: seq<X>, x: X, post: seq<X>)
    requires IsCommMonoid(op, id)
    ensures Fold(op, id, f, key, pre + ([x] + post)) == op(f(x, key), Fold(op, id, f, key, pre + post))
  {
    var fx := f(x, key);
    var p := Fold(op, id, f, key, pre);
    var q := Fold(op, id, f, key, post);
    FoldAppend(op, id, f, key, pre, [x] + post);
    assert ([x] + post)[0] == x && ([x] + post)[1..] == post;
    FoldShift(op, id, op(p, fx), f, key, post);
    FoldAppend(op, id, f, key, pre, post);
    FoldShift(op, id, p, f, key, post);
    assert op(op(p, fx), q) == op(fx, op(p, q)) by {
      assert op(p, fx) == op(fx, p);
    }
  }

  /** Under a commutative monoid the order of the folded elements does not
      matter: permutations fold to the same value. */
  lemma {:induction false} FoldPermutation<X, K>(op: (int, int) -> int, id: int, f: (X, K) -> int, key: K,
                                                  a: seq<X>, b: seq<X>)
    requires IsCommMonoid(op, id)
    requires multiset(a) == multiset(b)
    ensures Fold(op, id, f, key, a) == Fold(op, id, f, key, b)
    decreases |a|
  {
    if |a| == 0 {
      assert |multiset(b)| == 0;
    } else {
      var x := a[0];
      assert x in multiset(b);
      var k :| 0 <= k < |b| && b[k] == x;
      var pre, post := b[..k], b[k + 1..];
      assert b == pre + ([x] + post);
      MultisetRemove(a, pre, x, post);
      FoldPermutation(op, id, f, key, a[1..], pre + post);
      assert op(id, f(x, key)) == f(x, key);
      FoldShift(op, id, f(x, key), f, key, a[1..]);
      FoldAround(op, id, f, key, pre, x, post);
    }
  }

  /** Under a commutative monoid, folding a concatenation of parts equals
      combining the folds of the parts. */
  lemma {:induction false} FoldFlatten<X, K>(op: (int, int) -> int, id: int, f: (X, K) -> int, key: K, ss: seq<seq<X>>)
    requires IsCommMonoid(op, id)
    ensures Fold(op, id, f, key, Flatten(ss)) == Combine(op, id, FoldEach(op, id, f, key, ss))
    decreases |ss|
  {
    if |ss| > 0 {
      var n := |ss| - 1;
      var ps := FoldEach(op, id, f, key, ss);
      FoldFlatten(op, id, f, key, ss[..n]);
      assert ps[..n] == FoldEach(op, id, f, key, ss[..n]);
      assert ps == ps[..n] + [ps[n]];
      FoldAppend(op, id, Pick, 0, ps[..n], [ps[n]]);
      FoldAppend(op, id, f, key, Flatten(ss[..n]), ss[n]);
      FoldShift(op, id, Fold(op, id, f, key, Flatten(ss[..n])), f, key, ss[n]);
    }
  }

  /** A permutation of the partial values combines to the same result: the
      order in which lanes contribute is irrelevant. */
  lemma CombineOrderIrrelevant(op: (int, int) -> int, id: int, ps: seq<int>, qs: seq<int>)
    requires IsCommMonoid(op, id)
    requires multiset(ps) == multiset(qs)
    ensures Combine(op, id, ps) == Combine(op, id, qs)
  {
    FoldPermutation(op, id, Pick, 0, ps, qs);
  }

  // ---------------------------------------------------------------------
  // The lanes
  // ---------------------------------------------------------------------

  /** The partial value of one lane (`Reduction2DImplN`, and the fold of
      `MultiReductionImpl`): it starts at `init` and folds the element of every
      index the lane owns, in increasing index order. */
  function LanePartial<K>(gridStride: bool, op: (int, int) -> int, init: int, e: (nat, K) -> int, key: K,
                          it: NdItem, threadsX: nat): (v: int)
    requires ValidItem(it)
    ensures gridStride ==> v == Fold(op, init, e, key, StrideVisits(it.globalId.x, it.globalRange.x, threadsX))
    ensures !gridStride ==> v == if it.globalId.x < threadsX then op(init, e(it.globalId.x, key)) else init
  {
    var s := Kernel1DImpl(gridStride, it, threadsX);
    assert !gridStride ==> s == if it.globalId.x < threadsX then [it.globalId.x] else [] by {
      if !gridStride && |s| == 1 {
        assert s[0] in s;
      }
    }
    assert !gridStride && it.globalId.x < threadsX
           ==> Fold(op, init, e, key, s) == op(init, e(it.globalId.x, key)) by {
      if !gridStride && it.globalId.x < threadsX {
        assert s[0] == it.globalId.x && s[1..] == [];
      }
    }
    Fold(op, init, e, key, s)
  }

  /** The partials of the lanes `0 .. r-1` of a row sharing the key `key`. */
  lemma RowPartialsAreFolds<K>(gridStride: bool, op: (int, int) -> int, init: int, e: (nat, K) -> int, key: K,
                               r: nat, w: nat, ps: seq<int>)
    requires |ps| == r
    requires forall l :: 0 <= l < r ==> ps[l] == LanePartial(gridStride, op, init, e, key, Item1D(l, r), w)
    ensures ps == FoldEach(op, init, e, key, Lanes1D(false, gridStride, r, w))
  {
  }

  /** With enough lanes for the stride mode, the partials of a row combine
      to the fold of every element of the row, each taken exactly once. */
  lemma {:induction false} RowTotal<K>(gridStride: bool, op: (int, int) -> int, init: int, e: (nat, K) -> int, key: K,
                                       r: nat, w: nat)
    requires IsCommMonoid(op, init)
    requires r > 0 && (gridStride || r >= w)
    ensures Combine(op, init, FoldEach(op, init, e, key, Lanes1D(false, gridStride, r, w)))
            == Fold(op, init, e, key, Range(0, w))
  {
    var ls := Lanes1D(false, gridStride, r, w);
    FoldFlatten(op, init, e, key, ls);
    Lanes1DExactlyOnce(false, gridStride, r, w);
    RangeExactlyOnce(w);
    NoDupSameElements(Flatten(ls), Range(0, w));
    FoldPermutation(op, init, e, key, Flatten(ls), Range(0, w));
  }

  // ---------------------------------------------------------------------
  // Reduction2D
  // ---------------------------------------------------------------------

  /** The two result slots: the host buffer and the device buffer. */
  datatype ReduceBuffer = HostBuffer | DeviceBuffer

  datatype Slots = Slots(host: int, device: int)

  function SlotValue(s: Slots, b: ReduceBuffer): int
  {
    if b == HostBuffer then s.host else s.device
  }

  /** The slots after seeding, and the slot the reduction accumulates into. */
  datatype Seeding = Seeding(slots: Slots, target: ReduceBuffer)

  /** Seeding: the host slot receives `init`; with asynchronous reductions the
      device slot receives a copy of it and becomes the target, otherwise the
      host slot is the target and the device slot is left alone. */
  function SeedResult(init: int, asyncReduction: bool, deviceBefore: int): (r: Seeding)
    ensures r.slots.host == init
    ensures r.target == DeviceBuffer <==> asyncReduction
    ensures SlotValue(r.slots, r.target) == init
    ensures !asyncReduction ==> r.slots.device == deviceBefore
  {
    var host := init;
    if asyncReduction then Seeding(Slots(host, host), DeviceBuffer)
    else Seeding(Slots(host, deviceBefore), HostBuffer)
  }

  /** Store `v` into the target slot. */
  function Store(s: Seeding, v: int): (r: Slots)
    ensures SlotValue(r, s.target) == v
    ensures s.target == DeviceBuffer ==> r.host == s.slots.host
    ensures s.target == HostBuffer ==> r.device == s.slots.device
  {
    if s.target == HostBuffer then s.slots.(host := v) else s.slots.(device := v)
  }

  /** The local y id of the lanes of global row `g`: the key of that row. */
  function RowKey(nd: NdRange, g: nat): nat
  {
    ItemAt(Dim3(0, g, 0), nd).localId.y
  }

  /** The partials of global row `g` of a `Reduction2D` nd-range, by lane. */
  function Reduction2DRow(gridStride: bool, op: (int, int) -> int, init: int, e: (nat, nat) -> int,
                          nd: NdRange, threadsX: nat, g: nat): (ps: seq<int>)
    requires g < nd.global.y && nd.global.z > 0
    ensures ps == FoldEach(op, init, e, RowKey(nd, g), Lanes1D(false, gridStride, nd.global.x, threadsX))
  {
    var ps := seq(nd.global.x, l requires 0 <= l < nd.global.x =>
      LanePartial(gridStride, op, init, e, ItemAt(Dim3(l, g, 0), nd).localId.y, ItemAt(Dim3(l, g, 0), nd), threadsX));
    assert forall l :: 0 <= l < nd.global.x ==>
      ps[l] == LanePartial(gridStride, op, init, e, RowKey(nd, g), Item1D(l, nd.global.x), threadsX) by {
      forall l | 0 <= l < nd.global.x
        ensures ps[l] == LanePartial(gridStride, op, init, e, RowKey(nd, g), Item1D(l, nd.global.x), threadsX)
      {
        Kernel1DLaneXOnly(false, gridStride, ItemAt(Dim3(l, g, 0), nd), Item1D(l, nd.global.x), threadsX);
      }
    }
    RowPartialsAreFolds(gridStride, op, init, e, RowKey(nd, g), nd.global.x, threadsX, ps);
    ps
  }

  /** The partials of all rows, row after row. */
  function Reduction2DRows(gridStride: bool, op: (int, int) -> int, init: int, e: (nat, nat) -> int,
                           nd: NdRange, threadsX: nat): (rows: seq<seq<int>>)
    requires nd.global.z > 0
    ensures |rows| == nd.global.y
    ensures forall g :: 0 <= g < nd.global.y ==> rows[g] == Reduction2DRow(gridStride, op, init, e, nd, threadsX, g)
  {
    seq(nd.global.y, g requires 0 <= g < nd.global.y => Reduction2DRow(gridStride, op, init, e, nd, threadsX, g))
  }

  /** The reference result: for every global row, the fold of the row's
      elements over the whole logical width. */
  function RowTotals(op: (int, int) -> int, init: int, e: (nat, nat) -> int, nd: NdRange, threadsX: nat)
    : (ts: seq<int>)
    ensures |ts| == nd.global.y
    ensures forall g :: 0 <= g < nd.global.y ==> ts[g] == Fold(op, init, e, RowKey(nd, g), Range(0, threadsX))
  {
    seq(nd.global.y, g requires 0 <= g < nd.global.y => Fold(op, init, e, RowKey(nd, g), Range(0, threadsX)))
  }

  /** Every lane partial of a `Reduction2D` launch, combined, is the
      combination of the row totals. */
  lemma {:induction false} Reduction2DTotal(gridStride: bool, op: (int, int) -> int, init: int, e: (nat, nat) -> int,
                                            nd: NdRange, threadsX: nat)
    requires IsCommMonoid(op, init)
    requires nd.global.z > 0 && nd.global.x > 0 && (gridStride || nd.global.x >= threadsX)
    ensures Combine(op, init, Flatten(Reduction2DRows(gridStride, op, init, e, nd, threadsX)))
            == Combine(op, init, RowTotals(op, init, e, nd, threadsX))
  {
    var rows := Reduction2DRows(gridStride, op, init, e, nd, threadsX);
    FoldFlatten(op, init, Pick, 0, rows);
    var totals := FoldEach(op, init, Pick, 0, rows);
    forall g | 0 <= g < nd.global.y
      ensures totals[g] == RowTotals(op, init, e, nd, threadsX)[g]
    {
      RowTotal(gridStride, op, init, e, RowKey(nd, g), nd.global.x, threadsX);
    }
    assert totals == RowTotals(op, init, e, nd, threadsX);
  }

  datatype Reduction2DRun = Reduction2DRun(range: NdRange, status: QudaStatus, slots: Slots,
                                           target: ReduceBuffer, partials: seq<int>)

  /** `Reduction2D`: seeds the result slot, launches `grid * block` lanes in
      blocks of `block` (one in z), and returns `QUDA_ERROR` exactly when the
      submission throws. The reduction object adds: an accepted launch leaves
      in the target slot the seed plus every lane partial, whatever operator
      the transformer folds with. For an additive transformer starting from
      zero, with enough lanes for the stride mode, that is the sum of the row
      totals. */
  function Reduction2D(gridStride: bool, tp: TuneParam, threads: Dim3, asyncReduction: bool, submit: Submission,
                       op: (int, int) -> int, init: int, e: (nat, nat) -> int, deviceBefore: int): (r: Reduction2DRun)
    ensures r.range.global == Dim3(tp.grid.x * tp.block.x, tp.grid.y * tp.block.y, 1)
    ensures r.range.local == Dim3(tp.block.x, tp.block.y, 1)
    ensures r.status == QudaError <==> submit == Threw
    ensures r.target == DeviceBuffer <==> asyncReduction
    ensures asyncReduction ==> r.slots.host == init
    ensures !asyncReduction ==> r.slots.device == deviceBefore
    ensures r.status == QudaError ==> r.partials == [] && SlotValue(r.slots, r.target) == init
    ensures r.status == QudaSuccess ==> SlotValue(r.slots, r.target) == Combine(Add, init, r.partials)
    ensures r.status == QudaSuccess ==> r.partials == Flatten(Reduction2DRows(gridStride, op, init, e, r.range, threads.x))
    ensures r.status == QudaSuccess && IsAddition(op) && init == 0 && r.range.global.x > 0
            && (gridStride || r.range.global.x >= threads.x)
            ==> SlotValue(r.slots, r.target) == Combine(Add, 0, RowTotals(op, init, e, r.range, threads.x))
  {
    var nd := NdRange(Dim3(tp.grid.x * tp.block.x, tp.grid.y * tp.block.y, 1), Dim3(tp.block.x, tp.block.y, 1));
    var seeded := SeedResult(init, asyncReduction, deviceBefore);
    if submit == Threw then
      Reduction2DRun(nd, QudaError, seeded.slots, seeded.target, [])
    else
      var partials := Flatten(Reduction2DRows(gridStride, op, init, e, nd, threads.x));
      var result := Combine(Add, SlotValue(seeded.slots, seeded.target), partials);
      assert IsAddition(op) && init == 0 && nd.global.x > 0 && (gridStride || nd.global.x >= threads.x)
             ==> result == Combine(Add, 0, RowTotals(op, init, e, nd, threads.x)) by {
        if IsAddition(op) && init == 0 && nd.global.x > 0 && (gridStride || nd.global.x >= threads.x) {
          AdditionIsCommMonoid(op);
          Reduction2DTotal(gridStride, op, init, e, nd, threads.x);
          FoldSameOp(Add, op, 0, Pick, 0, partials);
          FoldSameOp(op, Add, 0, Pick, 0, RowTotals(op, init, e, nd, threads.x));
        }
      }
      Reduction2DRun(nd, QudaSuccess, Store(seeded, result), seeded.target, partials)
  }

  // ---------------------------------------------------------------------
  // MultiReduction
  // ---------------------------------------------------------------------

  /** `MultiReductionImpl`: a lane whose global y id is at or beyond
      `threads.y` returns before folding anything; any other lane folds its
      x indices with the key `(j, k)`, its global y id and local z id. */
  function MultiReductionLane(gridStride: bool, op: (int, int) -> int, init: int, e: (nat, (nat, nat)) -> int,
                              it: NdItem, threads: Dim3): (v: Option<int>)
    requires ValidItem(it)
    ensures v.None? <==> it.globalId.y >= threads.y
    ensures v.Some? ==> v.value == LanePartial(gridStride, op, init, e, (it.globalId.y, it.localId.z), it, threads.x)
  {
    if it.globalId.y >= threads.y then None
    else Some(LanePartial(gridStride, op, init, e, (it.globalId.y, it.localId.z), it, threads.x))
  }

  /** The key of the lanes of global row `(j, g)` of a `MultiReduction`
      nd-range. */
  function MultiRowKey(nd: NdRange, j: nat, g: nat): (nat, nat)
  {
    (j, ItemAt(Dim3(0, j, g), nd).localId.z)
  }

  /** What the lanes of row `j` of plane `g` produce: nothing when the row is
      clipped, otherwise the partial of every lane. */
  function MultiReductionRow(gridStride: bool, op: (int, int) -> int, init: int, e: (nat, (nat, nat)) -> int,
                             nd: NdRange, threads: Dim3, j: nat, g: nat): (r: Option<seq<int>>)
    requires j < nd.global.y && g < nd.global.z
    ensures r.None? <==> j >= threads.y
    ensures r.Some? ==> |r.value| == nd.global.x
    ensures r.Some? ==> r.value == FoldEach(op, init, e, MultiRowKey(nd, j, g), Lanes1D(false, gridStride, nd.global.x, threads.x))
    ensures r.Some? && IsCommMonoid(op, init) && nd.global.x > 0 && (gridStride || nd.global.x >= threads.x)
            ==> Combine(op, init, r.value) == Fold(op, init, e, MultiRowKey(nd, j, g), Range(0, threads.x))
  {
    if j >= threads.y then None
    else
      var key := MultiRowKey(nd, j, g);
      var ps := seq(nd.global.x, l requires 0 <= l < nd.global.x =>
        MultiReductionLane(gridStride, op, init, e, ItemAt(Dim3(l, j, g), nd), threads).value);
      assert forall l :: 0 <= l < nd.global.x ==>
        ps[l] == LanePartial(gridStride, op, init, e, key, Item1D(l, nd.global.x), threads.x) by {
        forall l | 0 <= l < nd.global.x
          ensures ps[l] == LanePartial(gridStride, op, init, e, key, Item1D(l, nd.global.x), threads.x)
        {
          Kernel1DLaneXOnly(false, gridStride, ItemAt(Dim3(l, j, g), nd), Item1D(l, nd.global.x), threads.x);
        }
      }
      RowPartialsAreFolds(gridStride, op, init, e, key, nd.global.x, threads.x, ps);
      assert IsCommMonoid(op, init) && nd.global.x > 0 && (gridStride || nd.global.x >= threads.x)
             ==> Combine(op, init, ps) == Fold(op, init, e, key, Range(0, threads.x)) by {
        if IsCommMonoid(op, init) && nd.global.x > 0 && (gridStride || nd.global.x >= threads.x) {
          RowTotal(gridStride, op, init, e, key, nd.global.x, threads.x);
        }
      }
      Some(ps)
  }

  datatype MultiReductionRun = MultiReductionRun(range: NdRange, status: QudaStatus)

  /** `MultiReduction`: launches `grid * block` lanes in blocks of `block` in
      all three dimensions and returns `QUDA_ERROR` exactly when the
      submission throws. */
  function MultiReduction(tp: TuneParam, submit: Submission): (r: MultiReductionRun)
    ensures r.range.global == Dim3(tp.grid.x * tp.block.x, tp.grid.y * tp.block.y, tp.grid.z * tp.block.z)
    ensures r.range.local == tp.block
    ensures r.status == QudaError <==> submit == Threw
  {
    var nd := NdRange(Dim3(tp.grid.x * tp.block.x, tp.grid.y * tp.block.y, tp.grid.z * tp.block.z),
                      Dim3(tp.block.x, tp.block.y, tp.block.z));
    MultiReductionRun(nd, if submit == Threw then QudaError else QudaSuccess)
  }
}
