/**
 * The mesh-to-mesh transfer as specification functions: the inputs of one
 * run, the interpolated coarse and fine values, and the Gauss-point error
 * sweep as a fold over fine elements and their Gauss points that threads the
 * remembered coarse element and the running error sum.
 */
module Transfer {
  import opened Outcomes
  import opened FieldLayout
  import opened PointLocation

  /** A mesh: each element lists its global node ids; points gives each node's coordinates. */
  datatype Mesh = Mesh(elems: seq<seq<NodeId>>, points: seq<Point>)

  predicate WellFormed(m: Mesh)
  {
    forall e :: 0 <= e < |m.elems| ==> NodesBelow(m.elems[e], |m.points|)
  }

  /** The node gn is a node of some element of the mesh. */
  ghost predicate Referenced(m: Mesh, gn: NodeId)
  {
    exists e :: 0 <= e < |m.elems| && gn in m.elems[e]
  }

  /** Coarse-side finite-element capabilities: FE::inverse_map and FE::shape. */
  datatype CoarseFe = CoarseFe(inverseMap: (ElemId, Point) -> Point, shape: (ElemId, nat, Point) -> real)

  /**
   * Fine-side quadrature data after reinit on element e: the Gauss point
   * count, the Gauss points, the shape values phi[i][gp] and JxW[gp]. Here,
   * and in the sweeps' parameter e, an ElemId indexes the fine mesh's
   * elements; everywhere else it indexes the coarse mesh's.
   */
  datatype FineFe = FineFe(
    pointCount: ElemId -> nat,
    gaussPoint: (ElemId, nat) -> Point,
    phi: (ElemId, nat, nat) -> real,
    jxw: (ElemId, nat) -> real)

  /** How the sweep finds the coarse element: through the remembered element, or by the tree every time. */
  datatype Strategy = Cached | TreeOnly

  /** Sweep state: the remembered coarse element and the error sum so far. */
  datatype Sweep = Sweep(cache: ElemId, error: real)

  /**
   * One run's inputs as the readers deliver them: both meshes, both nodal
   * fields with nv variables each, the selected variable, the locator over
   * the coarse mesh and the finite-element capabilities.
   */
  datatype Problem = Problem(
    coarse: Mesh, fine: Mesh,
    coarseSoln: seq<real>, fineSoln: seq<real>,
    nv: nat, ivar: nat,
    locator: Locator, coarseFe: CoarseFe, fineFe: FineFe)
  {
    ghost predicate Valid()
    {
      |coarse.elems| > 0 && WellFormed(coarse) && WellFormed(fine)
      && |coarseSoln| == |coarse.points| * nv && |fineSoln| == |fine.points| * nv
      && ivar < nv
      && SoundTree(locator, |coarse.elems|)
    }

    /** Interpolation weights of coarse element ce at the physical point p. */
    function CoarseWeights(ce: ElemId, p: Point): nat -> real
    {
      var mapped := coarseFe.inverseMap(ce, p);
      (i: nat) => coarseFe.shape(ce, i, mapped)
    }

    /** The coarse field's variable c interpolated at p inside coarse element ce. */
    function CoarseValue(ce: ElemId, p: Point, c: nat): real
      requires Valid() && ce < |coarse.elems| && c < nv
    {
      NodalSum(coarseSoln, |coarse.points|, nv, c, coarse.elems[ce], CoarseWeights(ce, p), |coarse.elems[ce]|)
    }

    /** Shape values phi[i][gp] of fine element e at its Gauss point gp. */
    function FineWeights(e: ElemId, gp: nat): nat -> real
    {
      (i: nat) => fineFe.phi(e, i, gp)
    }

    /** The fine field's selected variable at Gauss point gp of fine element e. */
    function FineValue(e: ElemId, gp: nat): real
      requires Valid() && e < |fine.elems|
    {
      NodalSum(fineSoln, |fine.points|, nv, ivar, fine.elems[e], FineWeights(e, gp), |fine.elems[e]|)
    }

    /** The contribution JxW * (coarse - fine)^2 of Gauss point gp of e, with coarse element ce. */
    function GaussTerm(e: ElemId, gp: nat, ce: ElemId): real
      requires Valid() && e < |fine.elems| && ce < |coarse.elems|
    {
      var d := CoarseValue(ce, fineFe.gaussPoint(e, gp), ivar) - FineValue(e, gp);
      fineFe.jxw(e, gp) * (d * d)
    }

    function Lookup(strategy: Strategy, cache: ElemId, p: Point): (r: Result<ElemId, TransferError>)
      requires Valid() && cache < |coarse.elems|
      ensures r.Success? ==> r.value < |coarse.elems| && locator.contains(r.value, p)
    {
      match strategy
      case Cached => Locate(locator, |coarse.elems|, cache, p)
      case TreeOnly => SearchTree(locator, |coarse.elems|, p)
    }

    /** Gauss point gp of fine element e: locate it, then add its error term. */
    function GaussStep(strategy: Strategy, st: Sweep, e: ElemId, gp: nat): (r: Result<Sweep, TransferError>)
      requires Valid() && st.cache < |coarse.elems| && e < |fine.elems|
      ensures r.Success? ==> r.value.cache < |coarse.elems|
    {
      match Lookup(strategy, st.cache, fineFe.gaussPoint(e, gp))
      case Failure(err) => Failure(err)
      case Success(ce) => Success(Sweep(ce, st.error + GaussTerm(e, gp, ce)))
    }

    /** The first k Gauss points of fine element e, from state st. */
    function ElementSweep(strategy: Strategy, st: Sweep, e: ElemId, k: nat): (r: Result<Sweep, TransferError>)
      requires Valid() && st.cache < |coarse.elems| && e < |fine.elems|
      ensures r.Success? ==> r.value.cache < |coarse.elems|
    {
      if k == 0 then Success(st)
      else
        match ElementSweep(strategy, st, e, k - 1)
        case Failure(err) => Failure(err)
        case Success(s) => GaussStep(strategy, s, e, k - 1)
    }

    /** The first m fine elements, starting from coarse element 0 and a zero sum. */
    function MeshSweep(strategy: Strategy, m: nat): (r: Result<Sweep, TransferError>)
      requires Valid() && m <= |fine.elems|
      ensures r.Success? ==> r.value.cache < |coarse.elems|
    {
      if m == 0 then Success(Sweep(0, 0.0))
      else
        match MeshSweep(strategy, m - 1)
        case Failure(err) => Failure(err)
        case Success(s) => ElementSweep(strategy, s, m - 1, fineFe.pointCount(m - 1))
    }

    /** The squared error, before the square root: the sum over all Gauss points, or the first failure. */
    function ErrorSquared(strategy: Strategy): Result<real, TransferError>
      requires Valid()
    {
      match MeshSweep(strategy, |fine.elems|)
      case Failure(err) => Failure(err)
      case Success(s) => Success(s.error)
    }
  }

  // ------------------------------------------------------------------
  // A failure ends the sweep

  lemma {:induction false} ElementSweepFailurePersists(t: Problem, strategy: Strategy, st: Sweep, e: ElemId, k: nat, k': nat)
    requires t.Valid() && st.cache < |t.coarse.elems| && e < |t.fine.elems| && k <= k'
    requires t.ElementSweep(strategy, st, e, k).Failure?
    ensures t.ElementSweep(strategy, st, e, k') == t.ElementSweep(strategy, st, e, k)
    decreases k'
  {
    if k < k' {
      ElementSweepFailurePersists(t, strategy, st, e, k, k' - 1);
    }
  }

  /** One more Gauss point is one more step from the state reached so far. */
  lemma ElementSweepStep(t: Problem, strategy: Strategy, st: Sweep, e: ElemId, gp: nat, s: Sweep)
    requires t.Valid() && st.cache < |t.coarse.elems| && e < |t.fine.elems|
    requires t.ElementSweep(strategy, st, e, gp) == Success(s)
    ensures s.cache < |t.coarse.elems|
    ensures t.ElementSweep(strategy, st, e, gp + 1) == t.GaussStep(strategy, s, e, gp)
  {
  }

  lemma {:induction false} MeshSweepFailurePersists(t: Problem, strategy: Strategy, m: nat, m': nat)
    requires t.Valid() && m <= m' <= |t.fine.elems|
    requires t.MeshSweep(strategy, m).Failure?
    ensures t.MeshSweep(strategy, m') == t.MeshSweep(strategy, m)
    decreases m'
  {
    if m < m' {
      MeshSweepFailurePersists(t, strategy, m, m' - 1);
    }
  }

  // ------------------------------------------------------------------
  // The cache does not change the result

  /**
   * When each of the first k Gauss points of fine element e lies in exactly
   * one coarse element, which the tree returns, the cached and the tree-only
   * sweeps of those points agree, whatever element is remembered at the start.
   */
  lemma {:induction false} ElementSweepIgnoresCache(t: Problem, st: Sweep, e: ElemId, k: nat)
    requires t.Valid() && st.cache < |t.coarse.elems| && e < |t.fine.elems|
    requires forall gp :: 0 <= gp < k ==> UniquelyLocated(t.locator, |t.coarse.elems|, t.fineFe.gaussPoint(e, gp))
    ensures t.ElementSweep(Cached, st, e, k) == t.ElementSweep(TreeOnly, st, e, k)
  {
    if k > 0 {
      ElementSweepIgnoresCache(t, st, e, k - 1);
      match t.ElementSweep(Cached, st, e, k - 1)
      case Failure(_) =>
      case Success(s) =>
        LocateAgreesWithSearch(t.locator, |t.coarse.elems|, s.cache, t.fineFe.gaussPoint(e, k - 1));
    }
  }

  /** Every Gauss point of the first m fine elements lies in exactly one coarse element, which the tree returns. */
  ghost predicate GaussPointsUniquelyLocated(t: Problem, m: nat)
  {
    forall x, gp :: 0 <= x < m && 0 <= gp < t.fineFe.pointCount(x) ==>
      UniquelyLocated(t.locator, |t.coarse.elems|, t.fineFe.gaussPoint(x, gp))
  }

  /**
   * When every Gauss point lies in exactly one coarse element, which the tree
   * returns, the cached sweep computes exactly the error of always searching
   * the tree.
   */
  lemma {:induction false} CacheDoesNotChangeError(t: Problem)
    requires t.Valid()
    requires GaussPointsUniquelyLocated(t, |t.fine.elems|)
    ensures t.ErrorSquared(Cached) == t.ErrorSquared(TreeOnly)
  {
    MeshSweepIgnoresCache(t, |t.fine.elems|);
  }

  lemma {:induction false} MeshSweepIgnoresCache(t: Problem, m: nat)
    requires t.Valid() && m <= |t.fine.elems|
    requires GaussPointsUniquelyLocated(t, m)
    ensures t.MeshSweep(Cached, m) == t.MeshSweep(TreeOnly, m)
  {
    if m > 0 {
      MeshSweepIgnoresCache(t, m - 1);
      match t.MeshSweep(Cached, m - 1)
      case Failure(_) =>
      case Success(s) =>
        ElementSweepIgnoresCache(t, s, m - 1, t.fineFe.pointCount(m - 1));
    }
  }

  // ------------------------------------------------------------------
  // The error sum only ever grows by JxW * (coarse - fine)^2

  /** Nonnegative weights JxW give a nonnegative error sum. */
  lemma {:induction false} ErrorIsNonNegative(t: Problem, strategy: Strategy)
    requires t.Valid()
    requires forall x: ElemId, gp: nat :: t.fineFe.jxw(x, gp) >= 0.0
    ensures t.ErrorSquared(strategy).Success? ==> t.ErrorSquared(strategy).value >= 0.0
  {
    MeshSweepGrows(t, strategy, |t.fine.elems|);
  }

  lemma {:induction false} MeshSweepGrows(t: Problem, strategy: Strategy, m: nat)
    requires t.Valid() && m <= |t.fine.elems|
    requires forall x: ElemId, gp: nat :: t.fineFe.jxw(x, gp) >= 0.0
    ensures t.MeshSweep(strategy, m).Success? ==> t.MeshSweep(strategy, m).value.error >= 0.0
  {
    if m > 0 {
      MeshSweepGrows(t, strategy, m - 1);
      match t.MeshSweep(strategy, m - 1)
      case Failure(_) =>
      case Success(s) =>
        ElementSweepGrows(t, strategy, s, m - 1, t.fineFe.pointCount(m - 1));
    }
  }

  lemma WeightedSquareNonNegative(w: real, d: real)
    requires w >= 0.0
    ensures w * (d * d) >= 0.0
  {
    assert d * d >= 0.0;
  }

  lemma GaussStepGrows(t: Problem, strategy: Strategy, st: Sweep, e: ElemId, gp: nat)
    requires t.Valid() && st.cache < |t.coarse.elems| && e < |t.fine.elems|
    requires t.fineFe.jxw(e, gp) >= 0.0
    ensures t.GaussStep(strategy, st, e, gp).Success? ==> t.GaussStep(strategy, st, e, gp).value.error >= st.error
  {
    match t.Lookup(strategy, st.cache, t.fineFe.gaussPoint(e, gp))
    case Failure(_) =>
    case Success(ce) =>
      var d := t.CoarseValue(ce, t.fineFe.gaussPoint(e, gp), t.ivar) - t.FineValue(e, gp);
      WeightedSquareNonNegative(t.fineFe.jxw(e, gp), d);
  }

  lemma {:induction false} ElementSweepGrows(t: Problem, strategy: Strategy, st: Sweep, e: ElemId, k: nat)
    requires t.Valid() && st.cache < |t.coarse.elems| && e < |t.fine.elems|
    requires forall x: ElemId, gp: nat :: t.fineFe.jxw(x, gp) >= 0.0
    ensures t.ElementSweep(strategy, st, e, k).Success? ==> t.ElementSweep(strategy, st, e, k).value.error >= st.error
  {
    if k > 0 {
      ElementSweepGrows(t, strategy, st, e, k - 1);
      match t.ElementSweep(strategy, st, e, k - 1)
      case Failure(_) =>
      case Success(s) =>
        GaussStepGrows(t, strategy, s, e, k - 1);
    }
  }

  // ------------------------------------------------------------------
  // Agreeing fields give zero error

  /** At every Gauss point, every coarse element containing it interpolates the fine value. */
  ghost predicate FieldsAgree(t: Problem)
    requires t.Valid()
  {
    forall e: ElemId, gp: nat, ce: ElemId :: 0 <= e < |t.fine.elems| && gp < t.fineFe.pointCount(e) && 0 <= ce < |t.coarse.elems|
      && t.locator.contains(ce, t.fineFe.gaussPoint(e, gp))
      ==> t.CoarseValue(ce, t.fineFe.gaussPoint(e, gp), t.ivar) == t.FineValue(e, gp)
  }

  /** If the coarse and fine values agree at every Gauss point, the sum stays exactly 0. */
  lemma {:induction false} ErrorVanishesWhenFieldsAgree(t: Problem, strategy: Strategy)
    requires t.Valid() && FieldsAgree(t)
    ensures t.ErrorSquared(strategy).Success? ==> t.ErrorSquared(strategy).value == 0.0
  {
    MeshSweepStaysZero(t, strategy, |t.fine.elems|);
  }

  lemma {:induction false} MeshSweepStaysZero(t: Problem, strategy: Strategy, m: nat)
    requires t.Valid() && FieldsAgree(t) && m <= |t.fine.elems|
    ensures t.MeshSweep(strategy, m).Success? ==> t.MeshSweep(strategy, m).value.error == 0.0
  {
    if m > 0 {
      MeshSweepStaysZero(t, strategy, m - 1);
      match t.MeshSweep(strategy, m - 1)
      case Failure(_) =>
      case Success(s) =>
        ElementSweepStaysZero(t, strategy, s, m - 1, t.fineFe.pointCount(m - 1));
    }
  }

  lemma {:induction false} ElementSweepStaysZero(t: Problem, strategy: Strategy, st: Sweep, e: ElemId, k: nat)
    requires t.Valid() && FieldsAgree(t) && st.cache < |t.coarse.elems| && e < |t.fine.elems|
    requires st.error == 0.0 && k <= t.fineFe.pointCount(e)
    ensures t.ElementSweep(strategy, st, e, k).Success? ==> t.ElementSweep(strategy, st, e, k).value.error == 0.0
  {
    if k > 0 {
      ElementSweepStaysZero(t, strategy, st, e, k - 1);
      match t.ElementSweep(strategy, st, e, k - 1)
      case Failure(_) =>
      case Success(s) =>
        match t.Lookup(strategy, s.cache, t.fineFe.gaussPoint(e, k - 1))
        case Failure(_) =>
        case Success(ce) =>
          assert t.GaussTerm(e, k - 1, ce) == 0.0;
    }
  }

  // ------------------------------------------------------------------
  // Constant fields

  /** Variable c of the field is the constant v at every node. */
  ghost predicate ConstantField(field: seq<real>, nNodes: nat, nv: nat, c: nat, v: real)
    requires |field| == nNodes * nv && c < nv
  {
    forall gn :: 0 <= gn < nNodes ==> NodalValue(field, nNodes, nv, gn, c) == v
  }

  /** The coarse shape functions sum to one at every point of every coarse element. */
  ghost predicate CoarsePartitionOfUnity(t: Problem)
  {
    forall ce: ElemId, p: Point :: 0 <= ce < |t.coarse.elems| ==> WeightSum(t.CoarseWeights(ce, p), |t.coarse.elems[ce]|) == 1.0
  }

  /** The fine shape functions sum to one at every Gauss point of every fine element. */
  ghost predicate FinePartitionOfUnity(t: Problem)
  {
    forall e: ElemId, gp: nat :: 0 <= e < |t.fine.elems| ==> WeightSum(t.FineWeights(e, gp), |t.fine.elems[e]|) == 1.0
  }

  /** A constant coarse field interpolates to that constant wherever its shape functions sum to one. */
  lemma CoarseValueOfConstant(t: Problem, ce: ElemId, p: Point, c: nat, v: real)
    requires t.Valid() && ce < |t.coarse.elems| && c < t.nv
    requires ConstantField(t.coarseSoln, |t.coarse.points|, t.nv, c, v) && CoarsePartitionOfUnity(t)
    ensures t.CoarseValue(ce, p, c) == v
  {
    var nodes := t.coarse.elems[ce];
    NodalSumOfConstant(t.coarseSoln, |t.coarse.points|, t.nv, c, nodes, t.CoarseWeights(ce, p), |nodes|, v);
  }

  lemma FineValueOfConstant(t: Problem, e: ElemId, gp: nat, v: real)
    requires t.Valid() && e < |t.fine.elems|
    requires ConstantField(t.fineSoln, |t.fine.points|, t.nv, t.ivar, v) && FinePartitionOfUnity(t)
    ensures t.FineValue(e, gp) == v
  {
    var nodes := t.fine.elems[e];
    NodalSumOfConstant(t.fineSoln, |t.fine.points|, t.nv, t.ivar, nodes, t.FineWeights(e, gp), |nodes|, v);
  }

  /**
   * Both fields constant and equal in the selected variable (for instance a
   * single cube and its refinement, both carrying 1.0): the error sum is 0.
   */
  lemma ConstantFieldsHaveZeroError(t: Problem, strategy: Strategy, v: real)
    requires t.Valid()
    requires ConstantField(t.coarseSoln, |t.coarse.points|, t.nv, t.ivar, v) && CoarsePartitionOfUnity(t)
    requires ConstantField(t.fineSoln, |t.fine.points|, t.nv, t.ivar, v) && FinePartitionOfUnity(t)
    ensures t.ErrorSquared(strategy).Success? ==> t.ErrorSquared(strategy).value == 0.0
  {
    forall e: ElemId, gp: nat, ce: ElemId | 0 <= e < |t.fine.elems| && gp < t.fineFe.pointCount(e) && 0 <= ce < |t.coarse.elems|
      && t.locator.contains(ce, t.fineFe.gaussPoint(e, gp))
      ensures t.CoarseValue(ce, t.fineFe.gaussPoint(e, gp), t.ivar) == t.FineValue(e, gp)
    {
      CoarseValueOfConstant(t, ce, t.fineFe.gaussPoint(e, gp), t.ivar, v);
      FineValueOfConstant(t, e, gp, v);
    }
    ErrorVanishesWhenFieldsAgree(t, strategy);
  }
}
