/** The clover-field parameter rules: which field order is native for which
    precision, how `setPrecision` moves a parameter set to a new precision,
    and what the three `CloverFieldParam` constructors initialise. Whether
    the build defines `FLOAT8` is the parameter `float8`. Double-precision
    fields are modelled as reals, without rounding. */
module Clover {
  import opened QudaTypes

  datatype Precision = QuarterPrecision | HalfPrecision | SinglePrecision | DoublePrecision | InvalidPrecision

  /** `QudaCloverFieldOrder`: the three native orders by name, the others by
      their enumerator value. */
  datatype CloverOrder = Float2Order | Float4Order | Float8Order | OtherOrder(code: int)

  datatype FieldLocation = InvalidLocation | CpuLocation | CudaLocation

  datatype FieldCreate = NullCreate | ZeroCreate | CopyCreate | ReferenceCreate

  datatype SiteSubset = ParitySiteSubset | FullSiteSubset

  /** A device or host address; `Null` is `nullptr`. */
  datatype FieldPtr = Null | Address(addr: nat)

  /** The native order of a precision, when it has one: `FLOAT2` for double,
      `FLOAT4` for single, and for half and quarter `FLOAT8` when the build
      defines `FLOAT8`, else `FLOAT4`. */
  function NativeOrder(p: Precision, float8: bool): Option<CloverOrder>
  {
    match p
    case DoublePrecision => Some(Float2Order)
    case SinglePrecision => Some(Float4Order)
    case HalfPrecision => Some(if float8 then Float8Order else Float4Order)
    case QuarterPrecision => Some(if float8 then Float8Order else Float4Order)
    case InvalidPrecision => None
  }

  /** `clover::isNative`: an order is native for a precision exactly when it
      is that precision's native order. */
  function IsNative(order: CloverOrder, precision: Precision, float8: bool): (b: bool)
    ensures b <==> NativeOrder(precision, float8) == Some(order)
  {
    if precision == DoublePrecision then order == Float2Order
    else if precision == SinglePrecision then order == Float4Order
    else if precision == HalfPrecision || precision == QuarterPrecision then
      (if float8 then order == Float8Order else order == Float4Order)
    else false
  }

  /** Every valid precision has exactly one native order, and no order is
      native for an invalid precision. */
  lemma NativeOrderUnique(o1: CloverOrder, o2: CloverOrder, p: Precision, float8: bool)
    ensures p != InvalidPrecision ==> IsNative(NativeOrder(p, float8).value, p, float8)
    ensures IsNative(o1, p, float8) && IsNative(o2, p, float8) ==> o1 == o2
    ensures p == InvalidPrecision ==> !IsNative(o1, p, float8)
  {
  }

  /** The part of the lattice-field parameters the clover code touches: the
      number of dimensions `nDim` and the extents `x`, an array of
      `QUDA_MAX_DIM` entries of which the first `nDim` are in use. */
  datatype LatticeParam = LatticeParam(precision: Precision, ghostPrecision: Precision, siteSubset: SiteSubset,
                                       pad: int, nDim: nat, x: seq<int>)

  /** `CloverFieldParam`. */
  datatype CloverParam = CloverParam(
    lattice: LatticeParam,
    reconstruct: bool, inverse: bool, clover: FieldPtr, cloverInv: FieldPtr,
    csw: real, coeff: real, twisted: bool, mu2: real, rho: real,
    order: CloverOrder, create: FieldCreate, location: FieldLocation)

  /** `setPrecision`: both precisions become `p`. When the parameters were in
      native order for the OLD precision, or nativeness is forced, the order
      becomes the native order of `p` (if `p` has one); otherwise it stays. */
  function SetPrecision(c: CloverParam, p: Precision, forceNative: bool, float8: bool): (r: CloverParam)
    ensures r.lattice.precision == p && r.lattice.ghostPrecision == p
    ensures (forceNative || IsNative(c.order, c.lattice.precision, float8)) && p != InvalidPrecision
            ==> IsNative(r.order, p, float8)
    ensures !forceNative && !IsNative(c.order, c.lattice.precision, float8) ==> r.order == c.order
    ensures p == InvalidPrecision ==> r.order == c.order
    ensures r.(lattice := c.lattice, order := c.order) == c
    ensures r.lattice.(precision := c.lattice.precision, ghostPrecision := c.lattice.ghostPrecision) == c.lattice
  {
    var native := if forceNative then true else IsNative(c.order, c.lattice.precision, float8);
    var order :=
      if !native then c.order
      else if p == DoublePrecision then Float2Order
      else if p == SinglePrecision then Float4Order
      else if p == HalfPrecision || p == QuarterPrecision then (if float8 then Float8Order else Float4Order)
      else c.order;
    c.(lattice := c.lattice.(precision := p, ghostPrecision := p), order := order)
  }

  /** Setting the same precision twice is the same as setting it once. */
  lemma SetPrecisionIdempotent(c: CloverParam, p: Precision, forceNative: bool, float8: bool)
    ensures SetPrecision(SetPrecision(c, p, forceNative, float8), p, forceNative, float8)
            == SetPrecision(c, p, forceNative, float8)
  {
  }

  /** Once native, a parameter set stays native through any change to a
      valid precision, forced or not. */
  lemma SetPrecisionKeepsNative(c: CloverParam, p: Precision, forceNative: bool, float8: bool)
    requires IsNative(c.order, c.lattice.precision, float8) && p != InvalidPrecision
    ensures IsNative(SetPrecision(c, p, forceNative, float8).order, p, float8)
  {
  }

  /** The default constructor. The base-class defaults, the build's
      `clover::reconstruct()` flag and the members it leaves uninitialised
      (`csw`, `coeff`, `order`, `create`) are parameters. */
  function DefaultParam(lattice: LatticeParam, reconstructBuild: bool,
                        csw: real, coeff: real, order: CloverOrder, create: FieldCreate): (c: CloverParam)
    ensures c.inverse && !c.twisted && c.mu2 == 0.0 && c.rho == 0.0
    ensures c.clover == Null && c.cloverInv == Null
    ensures c.location == InvalidLocation
    ensures c.reconstruct == reconstructBuild
    ensures c.lattice == lattice
  {
    CloverParam(lattice, reconstructBuild, true, Null, Null, csw, coeff, false, 0.0, 0.0, order, create, InvalidLocation)
  }

  /** The copy constructor. It copies the lattice part and the listed
      members, but not `csw`, `coeff`, `order` or `create`, which are left
      uninitialised (parameters here). */
  function CopyParam(src: CloverParam, csw: real, coeff: real, order: CloverOrder, create: FieldCreate): (c: CloverParam)
    ensures c.lattice == src.lattice
    ensures c.reconstruct == src.reconstruct && c.inverse == src.inverse
    ensures c.clover == src.clover && c.cloverInv == src.cloverInv
    ensures c.twisted == src.twisted && c.mu2 == src.mu2 && c.rho == src.rho && c.location == src.location
    ensures c.csw == csw && c.coeff == coeff && c.order == order && c.create == create
  {
    CloverParam(src.lattice, src.reconstruct, src.inverse, src.clover, src.cloverInv, csw, coeff,
                src.twisted, src.mu2, src.rho, order, create, src.location)
  }

  /** A copy differs from its source at most in the members the copy
      constructor does not copy; copying with those members taken from the
      source gives the source back. */
  lemma CopyRoundTrip(src: CloverParam)
    ensures CopyParam(src, src.csw, src.coeff, src.order, src.create) == src
  {
  }

  datatype DslashType = TwistedCloverDslash | OtherDslash(code: int)

  /** The members of `QudaInvertParam` the clover constructor reads. */
  datatype InvertParam = InvertParam(cloverCsw: real, cloverCoeff: real, kappa: real, mu: real,
                                     dslashType: DslashType, cloverRho: real, clPad: int)

  /** The constructor from invert parameters, over the default lattice
      parameters `lattice`: a full-site field padded by `cl_pad` whose first
      `nDim` extents are copied from `x`, the rest of the extent array being
      left as the defaults had it; the overall coefficient is `kappa * csw`
      unless `clover_coeff` was set; the field is twisted exactly for the
      twisted-clover operator, and only then has a twisted-mass term
      `4 kappa^2 mu^2`. */
  function InvertCloverParam(inv: InvertParam, x: seq<int>, lattice: LatticeParam,
                             reconstructBuild: bool, order: CloverOrder, create: FieldCreate): (c: CloverParam)
    requires lattice.nDim <= |lattice.x| && lattice.nDim <= |x|
    ensures c.twisted <==> inv.dslashType == TwistedCloverDslash
    ensures !c.twisted ==> c.mu2 == 0.0
    ensures c.twisted ==> c.mu2 == 4.0 * inv.kappa * inv.kappa * inv.mu * inv.mu && c.mu2 >= 0.0
    ensures inv.cloverCoeff != 0.0 ==> c.coeff == inv.cloverCoeff
    ensures inv.cloverCoeff == 0.0 ==> c.coeff == inv.kappa * inv.cloverCsw
    ensures c.csw == inv.cloverCsw && c.rho == inv.cloverRho
    ensures c.inverse && c.clover == Null && c.cloverInv == Null && c.location == InvalidLocation
    ensures c.reconstruct == reconstructBuild
    ensures c.lattice.siteSubset == FullSiteSubset && c.lattice.pad == inv.clPad
    ensures |c.lattice.x| == |lattice.x|
    ensures forall i :: 0 <= i < |lattice.x| ==> c.lattice.x[i] == if i < lattice.nDim then x[i] else lattice.x[i]
    ensures c.lattice.(siteSubset := lattice.siteSubset, pad := lattice.pad, x := lattice.x) == lattice
  {
    var twisted := inv.dslashType == TwistedCloverDslash;
    var k2 := inv.kappa * inv.kappa;
    var m2 := inv.mu * inv.mu;
    assert k2 * m2 >= 0.0;
    var n := lattice.nDim;
    CloverParam(lattice.(siteSubset := FullSiteSubset, pad := inv.clPad, x := x[..n] + lattice.x[n..]),
                reconstructBuild, true, Null, Null, inv.cloverCsw,
                if inv.cloverCoeff == 0.0 then inv.kappa * inv.cloverCsw else inv.cloverCoeff,
                twisted, if twisted then 4.0 * k2 * m2 else 0.0, inv.cloverRho,
                order, create, InvalidLocation)
  }

  /** The constructor from invert parameters agrees with the default
      constructor on every member it does not derive from the invert
      parameters: it is the default parameters with the site subset, the pad,
      the extents and the clover coefficients overwritten. */
  lemma InvertExtendsDefault(inv: InvertParam, x: seq<int>, lattice: LatticeParam,
                             reconstructBuild: bool, order: CloverOrder, create: FieldCreate)
    requires lattice.nDim <= |lattice.x| && lattice.nDim <= |x|
    ensures var c := InvertCloverParam(inv, x, lattice, reconstructBuild, order, create);
            c == DefaultParam(c.lattice, reconstructBuild, c.csw, c.coeff, order, create)
                   .(twisted := c.twisted, mu2 := c.mu2, rho := c.rho)
  {
  }

  /** The part of a `CloverField` these accessors read. */
  datatype CloverField = CloverField(clover: FieldPtr, cloverInv: FieldPtr, order: CloverOrder, precision: Precision)

  /** `CloverField::V`: the inverse field when asked for it, else the field. */
  function V(f: CloverField, inverse: bool): (p: FieldPtr)
    ensures inverse ==> p == f.cloverInv
    ensures !inverse ==> p == f.clover
  {
    if inverse then f.cloverInv else f.clover
  }

  /** `CloverField::isNative`: the field's own order judged against its own
      precision. */
  function FieldIsNative(f: CloverField, float8: bool): (b: bool)
    ensures b <==> NativeOrder(f.precision, float8) == Some(f.order)
  {
    IsNative(f.order, f.precision, float8)
  }
}
