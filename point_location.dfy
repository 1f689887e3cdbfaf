/**
 * Locating a physical point in the coarse mesh: the precise per-element
 * containment test and the octree search are external capabilities, and the
 * transfer sweeps put a single remembered element in front of the search.
 */
module PointLocation {
  import opened Outcomes

  type ElemId = nat

  datatype Point = Point(x: real, y: real, z: real)

  /** The fatal conditions of the transfer program. */
  datatype TransferError =
    | UsageError
    | VariableNamesDiffer
    | PointNotLocated(p: Point)

  /**
   * The coarse mesh's containment test (Elem::contains_point) and its octree
   * search (OctTree::find_element), both taken as given functions.
   */
  datatype Locator = Locator(contains: (ElemId, Point) -> bool, find: Point -> Option<ElemId>)

  /** A hit of the tree search is one of the nElems elements and contains the point. */
  ghost predicate SoundTree(loc: Locator, nElems: nat)
  {
    forall p :: loc.find(p).Some? ==> loc.find(p).value < nElems && loc.contains(loc.find(p).value, p)
  }

  /** The tree search finds every point that some element contains. */
  ghost predicate CompleteTree(loc: Locator, nElems: nat)
  {
    forall e, p :: 0 <= e < nElems && loc.contains(e, p) ==> loc.find(p).Some?
  }

  /** No point is contained in two different elements. */
  ghost predicate UniqueContainment(loc: Locator, nElems: nat)
  {
    forall e1, e2, p :: 0 <= e1 < nElems && 0 <= e2 < nElems && loc.contains(e1, p) && loc.contains(e2, p) ==> e1 == e2
  }

  /** The tree search alone; a miss is fatal. */
  function SearchTree(loc: Locator, nElems: nat, p: Point): (r: Result<ElemId, TransferError>)
    requires SoundTree(loc, nElems)
    ensures r.Success? ==> r.value < nElems && loc.contains(r.value, p)
    ensures r.Failure? <==> loc.find(p).None?
    ensures r.Failure? ==> r.error == PointNotLocated(p)
  {
    match loc.find(p)
    case None => Failure(PointNotLocated(p))
    case Some(e) => Success(e)
  }

  /**
   * The cached lookup of both sweeps: the remembered element is tried first
   * and kept when it contains the point; only otherwise is the tree searched,
   * and its hit replaces the remembered element.
   */
  function Locate(loc: Locator, nElems: nat, cache: ElemId, p: Point): (r: Result<ElemId, TransferError>)
    requires cache < nElems && SoundTree(loc, nElems)
    ensures loc.contains(cache, p) ==> r == Success(cache)
    ensures !loc.contains(cache, p) ==> r == SearchTree(loc, nElems, p)
    ensures r.Success? ==> r.value < nElems && loc.contains(r.value, p)
    ensures r.Failure? <==> !loc.contains(cache, p) && loc.find(p).None?
  {
    if loc.contains(cache, p) then Success(cache) else SearchTree(loc, nElems, p)
  }

  /**
   * A hit on the remembered element does not consult the tree: two locators
   * that agree on containment give the same answer, whatever their searches.
   */
  lemma HitDoesNotSearch(loc1: Locator, loc2: Locator, nElems: nat, cache: ElemId, p: Point)
    requires cache < nElems && SoundTree(loc1, nElems) && SoundTree(loc2, nElems)
    requires loc1.contains == loc2.contains && loc1.contains(cache, p)
    ensures Locate(loc1, nElems, cache, p) == Locate(loc2, nElems, cache, p) == Success(cache)
  {
  }

  /**
   * The point p lies in at most one element, and the tree returns that
   * element: every element containing p is the tree's answer for p.
   */
  ghost predicate UniquelyLocated(loc: Locator, nElems: nat, p: Point)
  {
    forall e :: 0 <= e < nElems && loc.contains(e, p) ==> loc.find(p) == Some(e)
  }

  /** A tree that finds every contained point over a mesh without overlaps locates every point uniquely. */
  lemma GlobalUniquenessLocatesUniquely(loc: Locator, nElems: nat, p: Point)
    requires SoundTree(loc, nElems) && CompleteTree(loc, nElems) && UniqueContainment(loc, nElems)
    ensures UniquelyLocated(loc, nElems, p)
  {
    forall e | 0 <= e < nElems && loc.contains(e, p)
      ensures loc.find(p) == Some(e)
    {
      assert loc.find(p).Some?;
      assert loc.contains(loc.find(p).value, p);
    }
  }

  /**
   * The cache is only an optimisation: at a point that lies in exactly one
   * element, which the tree returns, the cached lookup answers exactly what
   * the tree search alone answers, whatever element is remembered.
   */
  lemma LocateAgreesWithSearch(loc: Locator, nElems: nat, cache: ElemId, p: Point)
    requires cache < nElems && SoundTree(loc, nElems)
    requires UniquelyLocated(loc, nElems, p)
    ensures Locate(loc, nElems, cache, p) == SearchTree(loc, nElems, p)
  {
  }
}
