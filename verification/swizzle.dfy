/** The HIP block-reduction entry: block-index swizzling and the row clip of
    `BlockKernel2D`. The swizzle views the part of the x grid that divides
    evenly by the swizzle factor as an f-by-(gridp/f) matrix and transposes it,
    so that consecutively scheduled blocks touch memory far apart. */
module Swizzle {
  import opened Arith
  import opened QudaTypes

  /** The two members of the kernel argument the swizzle reads. */
  datatype SwizzleArg = SwizzleArg(swizzle: bool, swizzleFactor: nat)

  /** The factor must be non-zero whenever swizzling is on (it is a divisor). */
  predicate ValidArg(arg: SwizzleArg)
  {
    arg.swizzle ==> arg.swizzleFactor > 0
  }

  /** The leading part of the grid that the factor divides: `n - n % f`. */
  function Gridp(n: nat, f: nat): (g: nat)
    requires f > 0
    ensures g <= n && g % f == 0 && n - g < f
  {
    DivModUnique(n - n % f, f, n / f, 0);
    n - n % f
  }

  /** `virtual_block_idx`: the block id a block with raw id `b` works on, in
      a grid of `n` blocks. */
  function VirtualBlockIdx(arg: SwizzleArg, n: nat, b: nat): (r: nat)
    requires ValidArg(arg)
    ensures b < n ==> r < n
    ensures arg.swizzle ==> (r < Gridp(n, arg.swizzleFactor) <==> b < Gridp(n, arg.swizzleFactor))
    ensures !arg.swizzle ==> r == b
    ensures arg.swizzle && b >= Gridp(n, arg.swizzleFactor) ==> r == b
  {
    if arg.swizzle && b < Gridp(n, arg.swizzleFactor) then
      PrefixBounds(n, arg.swizzleFactor, b);
      Transpose(n, arg.swizzleFactor, b)
    else
      b
  }

  /** The transposed position of a block inside the divisible prefix. */
  function Transpose(n: nat, f: nat, b: nat): nat
    requires f > 0
  {
    var i: nat, m: nat := b % f, Gridp(n, f) / f;
    i * m + b / f
  }

  /** The inverse transpose: row-major position of a transposed id. */
  function Untranspose(n: nat, f: nat, c: nat): nat
    requires f > 0 && c < Gridp(n, f)
  {
    ColumnsPositive(n, f, c);
    var m: nat := Gridp(n, f) / f;
    var p: nat, q: nat := c % m, c / m;
    p * f + q
  }

  /** A prefix that holds some block has at least one column. */
  lemma ColumnsPositive(n: nat, f: nat, c: nat)
    requires f > 0 && c < Gridp(n, f)
    ensures Gridp(n, f) / f > 0
  {
    ColumnCount(n, f);
  }

  /** The number of columns of the transposed matrix is `n / f`, and the
      prefix is exactly `f` columns' worth of blocks; a non-empty prefix has
      at least one column. */
  lemma ColumnCount(n: nat, f: nat)
    requires f > 0
    ensures Gridp(n, f) / f == n / f
    ensures Gridp(n, f) == (n / f) * f
    ensures Gridp(n, f) > 0 ==> Gridp(n, f) / f > 0
  {
    DivModUnique(n - n % f, f, n / f, 0);
  }

  /** A block of the prefix is sent into the prefix. */
  lemma PrefixBounds(n: nat, f: nat, b: nat)
    requires f > 0 && b < Gridp(n, f)
    ensures Transpose(n, f, b) < Gridp(n, f)
    ensures b / f < Gridp(n, f) / f && b % f < f
  {
    ColumnCount(n, f);
    TransposeIndex(f, Gridp(n, f) / f, b);
  }

  /** Transposing and transposing back restores the block id. */
  lemma UntransposeTranspose(n: nat, f: nat, b: nat)
    requires f > 0 && b < Gridp(n, f)
    ensures Transpose(n, f, b) < Gridp(n, f) && Untranspose(n, f, Transpose(n, f, b)) == b
  {
    ColumnCount(n, f);
    TransposeIndex(f, Gridp(n, f) / f, b);
  }

  /** Every prefix id is the transpose of some prefix block. */
  lemma TransposeUntranspose(n: nat, f: nat, c: nat)
    requires f > 0 && c < Gridp(n, f)
    ensures Untranspose(n, f, c) < Gridp(n, f)
    ensures Transpose(n, f, Untranspose(n, f, c)) == c
  {
    ColumnCount(n, f);
    TransposeIndex(Gridp(n, f) / f, f, c);
  }

  /** The block whose swizzled id is `c`: the inverse of `virtual_block_idx`. */
  function UnswizzleBlockIdx(arg: SwizzleArg, n: nat, c: nat): nat
    requires ValidArg(arg)
  {
    if arg.swizzle && c < Gridp(n, arg.swizzleFactor) then Untranspose(n, arg.swizzleFactor, c) else c
  }

  /** `virtual_block_idx` is a permutation of the block ids `[0, n)`: it has
      an inverse on `[0, n)` in both directions. */
  lemma {:induction false} VirtualBlockIdxIsBijection(arg: SwizzleArg, n: nat)
    requires ValidArg(arg)
    ensures forall b: nat :: b < n ==> UnswizzleBlockIdx(arg, n, VirtualBlockIdx(arg, n, b)) == b
    ensures forall c: nat :: c < n ==> UnswizzleBlockIdx(arg, n, c) < n && VirtualBlockIdx(arg, n, UnswizzleBlockIdx(arg, n, c)) == c
  {
    if arg.swizzle {
      var f := arg.swizzleFactor;
      forall b: nat | b < n
        ensures UnswizzleBlockIdx(arg, n, VirtualBlockIdx(arg, n, b)) == b
      {
        if b < Gridp(n, f) { UntransposeTranspose(n, f, b); }
      }
      forall c: nat | c < n
        ensures UnswizzleBlockIdx(arg, n, c) < n && VirtualBlockIdx(arg, n, UnswizzleBlockIdx(arg, n, c)) == c
      {
        if c < Gridp(n, f) { TransposeUntranspose(n, f, c); }
      }
    }
  }

  /** Distinct blocks never work on the same id. */
  lemma VirtualBlockIdxInjective(arg: SwizzleArg, n: nat, b1: nat, b2: nat)
    requires ValidArg(arg) && b1 < n && b2 < n && b1 != b2
    ensures VirtualBlockIdx(arg, n, b1) != VirtualBlockIdx(arg, n, b2)
  {
    VirtualBlockIdxIsBijection(arg, n);
  }

  /** The ids the blocks `0, 1, ..., n-1` work on, in launch order. */
  function VirtualOrder(arg: SwizzleArg, n: nat): (s: seq<nat>)
    requires ValidArg(arg)
    ensures |s| == n
    ensures forall b :: 0 <= b < n ==> s[b] == VirtualBlockIdx(arg, n, b)
  {
    seq(n, b requires 0 <= b < n => VirtualBlockIdx(arg, n, b))
  }

  /** Swizzling only reorders the blocks: every block id of the grid is
      worked on by exactly one block. */
  lemma {:induction false} VirtualOrderExactlyOnce(arg: SwizzleArg, n: nat)
    requires ValidArg(arg)
    ensures ExactlyOnce(VirtualOrder(arg, n), n)
  {
    var s := VirtualOrder(arg, n);
    VirtualBlockIdxIsBijection(arg, n);
    forall p, q | 0 <= p < q < |s|
      ensures s[p] != s[q]
    {
      VirtualBlockIdxInjective(arg, n, p, q);
    }
    forall c: nat | c < n
      ensures c in s
    {
      assert s[UnswizzleBlockIdx(arg, n, c)] == c;
    }
  }

  /** With a factor of one, or a factor larger than the grid (so that the
      divisible prefix is empty), the swizzle is the identity. */
  lemma TrivialFactorIsIdentity(arg: SwizzleArg, n: nat, b: nat)
    requires arg.swizzle && (arg.swizzleFactor == 1 || arg.swizzleFactor > n)
    ensures VirtualBlockIdx(arg, n, b) == b
  {
    var f := arg.swizzleFactor;
    if f == 1 && b < Gridp(n, f) {
      DivModUnique(b, 1, b, 0);
      ColumnCount(n, 1);
    }
  }

  /** The transpose formula on the prefix, as the caller sees it. */
  lemma PrefixIsTransposed(arg: SwizzleArg, n: nat, b: nat)
    requires arg.swizzle && arg.swizzleFactor > 0
    requires b < Gridp(n, arg.swizzleFactor)
    ensures VirtualBlockIdx(arg, n, b) == (b % arg.swizzleFactor) * (n / arg.swizzleFactor) + b / arg.swizzleFactor
  {
    ColumnCount(n, arg.swizzleFactor);
  }

  /** The coordinates a running `BlockKernel2D` lane hands to its transformer. */
  datatype TransformerCall = TransformerCall(blockIdx: Dim3, threadIdx: Dim3)

  /** `BlockKernel2D`: a lane whose row `blockDim.y * blockIdx.y + threadIdx.y`
      is outside `threads.y` returns without constructing the transformer;
      otherwise the transformer sees the swizzled x block id, the raw y block
      id and a zero z block id. */
  function BlockKernel2D(arg: SwizzleArg, threadsY: nat, gridDim: Dim3, blockDim: Dim3,
                         blockIdx: Dim3, threadIdx: Dim3): (r: Option<TransformerCall>)
    requires ValidArg(arg)
    ensures r.Some? <==> blockDim.y * blockIdx.y + threadIdx.y < threadsY
    ensures r.Some? ==> r.value.blockIdx.y == blockIdx.y && r.value.threadIdx == Dim3(threadIdx.x, threadIdx.y, 0)
    ensures r.Some? ==> r.value.blockIdx == Dim3(VirtualBlockIdx(arg, gridDim.x, blockIdx.x), blockIdx.y, 0)
    ensures r.Some? && blockIdx.x < gridDim.x ==> r.value.blockIdx.x < gridDim.x
  {
    var j := blockDim.y * blockIdx.y + threadIdx.y;
    if j >= threadsY then None
    else Some(TransformerCall(Dim3(VirtualBlockIdx(arg, gridDim.x, blockIdx.x), blockIdx.y, 0),
                              Dim3(threadIdx.x, threadIdx.y, 0)))
  }

  /** Each row below `threads.y` is reached by exactly the lane whose block
      and thread y coordinates decompose it, and by no other lane. */
  lemma BlockKernel2DRows(arg: SwizzleArg, threadsY: nat, gridDim: Dim3, blockDim: Dim3,
                          blockIdx: Dim3, threadIdx: Dim3, row: nat)
    requires ValidArg(arg) && blockDim.y > 0 && threadIdx.y < blockDim.y
    requires row < threadsY
    ensures BlockKernel2D(arg, threadsY, gridDim, blockDim, blockIdx, threadIdx).Some?
            && blockDim.y * blockIdx.y + threadIdx.y == row
            <==> blockIdx.y == row / blockDim.y && threadIdx.y == row % blockDim.y
  {
    if blockDim.y * blockIdx.y + threadIdx.y == row {
      DivModUnique(row, blockDim.y, blockIdx.y, threadIdx.y);
    }
  }
}
