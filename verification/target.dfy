/** Compile-time facts about the HIP execution target: which compilation pass is
    active, the coordinate accessors that degrade to a single lane on the host,
    and the architecture ceilings used to size blocks and kernel arguments. */
module TargetDevice {
  import opened QudaTypes
  import Arith

  /** Which side of the dual compilation is active (`__HIP_DEVICE_COMPILE__`). */
  datatype CompilePass = HostPass | DevicePass

  /** The built-in coordinates the device exposes to a running lane. */
  datatype Builtins = Builtins(blockDim: Dim3, blockIdx: Dim3, threadIdx: Dim3)

  predicate IsDevice(pass: CompilePass)
  {
    pass == DevicePass
  }

  predicate IsHost(pass: CompilePass)
  {
    pass == HostPass
  }

  /** Exactly one of the two passes is active at any point of the source. */
  lemma HostIsNotDevice(pass: CompilePass)
    ensures IsHost(pass) <==> !IsDevice(pass)
  {
  }

  function BlockDim(pass: CompilePass, b: Builtins): (r: Dim3)
    ensures IsHost(pass) ==> r == Dim3(1, 1, 1)
    ensures IsDevice(pass) ==> r == b.blockDim
  {
    if IsDevice(pass) then b.blockDim else Dim3(1, 1, 1)
  }

  function BlockIdx(pass: CompilePass, b: Builtins): (r: Dim3)
    ensures IsHost(pass) ==> r == Dim3(0, 0, 0)
    ensures IsDevice(pass) ==> r == b.blockIdx
  {
    if IsDevice(pass) then b.blockIdx else Dim3(0, 0, 0)
  }

  function ThreadIdx(pass: CompilePass, b: Builtins): (r: Dim3)
    ensures IsHost(pass) ==> r == Dim3(0, 0, 0)
    ensures IsDevice(pass) ==> r == b.threadIdx
  {
    if IsDevice(pass) then b.threadIdx else Dim3(0, 0, 0)
  }

  /** The linear x position `blockDim.x * blockIdx.x + threadIdx.x` a kernel
      body derives from the accessors. */
  function LinearX(pass: CompilePass, b: Builtins): nat
  {
    BlockDim(pass, b).x * BlockIdx(pass, b).x + ThreadIdx(pass, b).x
  }

  /** On the host the accessors describe a one-lane launch: the only lane is
      lane 0 of a one-lane block, whatever the device built-ins hold. */
  lemma HostIsSingleLane(b: Builtins)
    ensures LinearX(HostPass, b) == 0
    ensures var d := BlockDim(HostPass, b); d.x * d.y * d.z == 1
    ensures forall b' :: LinearX(HostPass, b') == LinearX(HostPass, b)
  {
  }

  /** `max_block_size<y, z>()`: the larger of the warp width and 256 split
      over the y and z block extents. */
  function MaxBlockSize(warp: nat, y: nat, z: nat): (r: nat)
    requires y >= 1 && z >= 1
    ensures r >= warp && r >= 256 / (y * z)
    ensures r == warp || r == 256 / (y * z)
  {
    if warp >= 256 / (y * z) then warp else 256 / (y * z)
  }

  /** A block that is larger in y and z never gets a larger x ceiling. */
  lemma MaxBlockSizeAntitone(warp: nat, y1: nat, z1: nat, y2: nat, z2: nat)
    requires y1 >= 1 && z1 >= 1 && y2 >= 1 && z2 >= 1
    requires y1 * z1 <= y2 * z2
    ensures MaxBlockSize(warp, y2, z2) <= MaxBlockSize(warp, y1, z1)
  {
    Arith.DivAntiDivisor(256, y1 * z1, y2 * z2);
  }

  /** `max_reduce_block_size<y, z>()`: collapses to the warp width when the
      fast-compile reduction mode is built in. */
  function MaxReduceBlockSize(fastCompile: bool, warp: nat, y: nat, z: nat): (r: nat)
    requires y >= 1 && z >= 1
    ensures warp <= r <= MaxBlockSize(warp, y, z)
    ensures fastCompile ==> r == warp
    ensures !fastCompile ==> r == MaxBlockSize(warp, y, z)
  {
    if fastCompile then warp else MaxBlockSize(warp, y, z)
  }

  /** Like the general ceiling, the reduction ceiling never grows with the
      block's y and z extents. */
  lemma MaxReduceBlockSizeAntitone(fastCompile: bool, warp: nat, y1: nat, z1: nat, y2: nat, z2: nat)
    requires y1 >= 1 && z1 >= 1 && y2 >= 1 && z2 >= 1
    requires y1 * z1 <= y2 * z2
    ensures MaxReduceBlockSize(fastCompile, warp, y2, z2) <= MaxReduceBlockSize(fastCompile, warp, y1, z1)
  {
    if !fastCompile {
      MaxBlockSizeAntitone(warp, y1, z1, y2, z2);
    }
  }

  /** `max_multi_reduce_block_size()`. */
  function MaxMultiReduceBlockSize(fastCompile: bool, warp: nat): (r: nat)
    ensures fastCompile ==> r == warp
    ensures !fastCompile ==> r == 128
  {
    if fastCompile then warp else 128
  }

  /** The reduction ceilings never drop below the warp width, in either mode. */
  lemma ReduceCeilingsCoverWarp(fastCompile: bool, warp: nat, y: nat, z: nat)
    requires y >= 1 && z >= 1 && warp <= 128
    ensures MaxReduceBlockSize(fastCompile, warp, y, z) >= warp
    ensures MaxMultiReduceBlockSize(fastCompile, warp) >= warp
  {
  }

  /** Whether lane `lane` of a warp is enabled in a 32-bit lane mask. */
  predicate LaneInMask(mask: bv32, lane: nat)
    requires lane < 32
  {
    (mask >> lane) & 1 == 1
  }

  const TransformReduceBlockSize: nat := 256
  const MaxConstantParamSize: nat := 8192
  const MaxKernelArgSize: nat := 4096
  const SharedMemoryBankWidth: nat := 32
  const WarpConvergedMask: bv32 := 0xffff_ffff

  /** An argument small enough for the constant buffer path but too big to
      be passed inline exists; the transform-reduce block size is the
      general ceiling `max_block_size<1, 1>()` with no warp floor (256); and
      the converged mask selects every lane of a 32-bit lane mask. */
  lemma TargetConstants()
    ensures MaxKernelArgSize < MaxConstantParamSize
    ensures MaxKernelArgSize % SharedMemoryBankWidth == 0
    ensures TransformReduceBlockSize == MaxBlockSize(0, 1, 1)
    ensures forall l: nat :: l < 32 ==> LaneInMask(WarpConvergedMask, l)
  {
  }
}
