/**
 * The grid-to-grid transfer program: the argument and variable-name checks,
 * the Gauss-point error sweep and the nodal-difference sweep, written as the
 * loops the program runs and proved against the specification functions of
 * modules Transfer and NodalSweep.
 */
module Grid2Grid {
  import opened Outcomes
  import opened FieldLayout
  import opened PointLocation
  import opened Transfer
  import opened NodalSweep

  /** What the program produces: the error before its square root and the nodal difference field. */
  datatype Output = Output(errorSquared: real, diff: seq<real>, diffNames: seq<string>)

  /** Number of command-line arguments, program name included, that the program needs. */
  const RequiredArgs: nat := 6

  /**
   * One Gauss point: the fine value by the fine shape functions, the coarse
   * element through the remembered element, the coarse value there, and the
   * term JxW * (coarse - fine)^2 added to the sum.
   */
  method GaussPoint(t: Problem, e: ElemId, gp: nat, st: Sweep) returns (r: Result<Sweep, TransferError>)
    requires t.Valid() && e < |t.fine.elems| && st.cache < |t.coarse.elems|
    ensures r == t.GaussStep(Cached, st, e, gp)
  {
    var fineSoln := Interpolate(t.fineSoln, |t.fine.points|, t.nv, t.ivar, t.fine.elems[e], t.FineWeights(e, gp));
    var p := t.fineFe.gaussPoint(e, gp);
    var located := Locate(t.locator, |t.coarse.elems|, st.cache, p);
    if located.Failure? {
      return Failure(located.error);
    }
    var coarseElement := located.value;
    var coarseSoln := Interpolate(t.coarseSoln, |t.coarse.points|, t.nv, t.ivar,
                                  t.coarse.elems[coarseElement], t.CoarseWeights(coarseElement, p));
    assert located == t.Lookup(Cached, st.cache, p);
    assert coarseSoln - fineSoln == t.CoarseValue(coarseElement, p, t.ivar) - t.FineValue(e, gp);
    assert t.GaussStep(Cached, st, e, gp) == Success(Sweep(coarseElement, st.error + t.GaussTerm(e, gp, coarseElement)));
    assert t.GaussTerm(e, gp, coarseElement) == t.fineFe.jxw(e, gp) * ((coarseSoln - fineSoln) * (coarseSoln - fineSoln));
    r := Success(Sweep(coarseElement, st.error + t.fineFe.jxw(e, gp) * ((coarseSoln - fineSoln) * (coarseSoln - fineSoln))));
  }

  /**
   * The Gauss-point sweep: every Gauss point of every fine element, with the
   * remembered coarse element seeded with coarse element 0 and the sum with 0.
   * A point the tree cannot find aborts the sweep.
   */
  method GaussPointError(t: Problem) returns (r: Result<real, TransferError>)
    requires t.Valid()
    ensures r == t.ErrorSquared(Cached)
  {
    var coarseElement: ElemId := 0;
    var error := 0.0;
    for e := 0 to |t.fine.elems|
      invariant coarseElement < |t.coarse.elems|
      invariant t.MeshSweep(Cached, e) == Success(Sweep(coarseElement, error))
    {
      ghost var start := Sweep(coarseElement, error);
      for gp := 0 to t.fineFe.pointCount(e)
        invariant coarseElement < |t.coarse.elems|
        invariant t.ElementSweep(Cached, start, e, gp) == Success(Sweep(coarseElement, error))
      {
        ElementSweepStep(t, Cached, start, e, gp, Sweep(coarseElement, error));
        var step := GaussPoint(t, e, gp, Sweep(coarseElement, error));
        if step.Failure? {
          ElementSweepFailurePersists(t, Cached, start, e, gp + 1, t.fineFe.pointCount(e));
          MeshSweepFailurePersists(t, Cached, e + 1, |t.fine.elems|);
          return Failure(step.error);
        }
        coarseElement, error := step.value.cache, step.value.error;
      }
    }
    r := Success(error);
  }

  /**
   * Writes the difference entries of node gn: for every variable c, the
   * coarse value at the node's point inside coarse element ce minus the fine
   * nodal value. The entries of every other node stay as they were.
   */
  method WriteNodeDiff(t: Problem, diff: array<real>, gn: NodeId, ce: ElemId)
    requires t.Valid() && diff.Length == |t.fineSoln| && gn < |t.fine.points| && ce < |t.coarse.elems|
    requires t.locator.contains(ce, t.fine.points[gn])
    modifies diff
    ensures diff[..] == DiffEntries(t, old(diff[..]), gn, ce, t.nv)
    ensures NodeDiffed(t, diff[..], gn, ce)
    ensures UntouchedOutside(t, diff[..], old(diff[..]), {gn})
  {
    var nFine := |t.fine.points|;
    var nv := t.nv;
    var p := t.fine.points[gn];
    for c := 0 to nv
      invariant diff[..] == DiffEntries(t, old(diff[..]), gn, ce, c)
    {
      var coarseSoln := Interpolate(t.coarseSoln, |t.coarse.points|, nv, c, t.coarse.elems[ce], t.CoarseWeights(ce, p));
      FieldIndexInBounds(gn, c, nFine, nv);
      diff[FieldIndex(gn, nv, c)] := coarseSoln - t.fineSoln[FieldIndex(gn, nv, c)];
    }
    WriteAllDiffs(t, old(diff[..]), gn, ce);
  }

  /**
   * One local node of the nodal-difference sweep: a node already marked is
   * skipped; any other node is marked, located through the remembered coarse
   * element and has its difference entries written. The result is the new
   * remembered element, or the lookup's failure.
   */
  method HandleNode(t: Problem, diff: array<real>, visited: array<bool>, gn: NodeId, cache: ElemId,
                    ghost order: seq<NodeId>, ghost used: map<NodeId, ElemId>)
    returns (r: Result<ElemId, TransferError>, ghost order': seq<NodeId>, ghost used': map<NodeId, ElemId>)
    requires t.Valid() && diff.Length == |t.fineSoln| && visited.Length == |t.fine.points|
    requires gn < |t.fine.points| && cache < |t.coarse.elems|
    requires forall g :: 0 <= g < visited.Length ==> (visited[g] <==> g in used)
    modifies diff, visited
    ensures r.Failure? ==> NodeStep(t, NodalState(cache, order, used, old(diff[..])), gn) == Failure(r.error)
    ensures r.Success? ==> r.value < |t.coarse.elems|
    ensures r.Success? ==> NodeStep(t, NodalState(cache, order, used, old(diff[..])), gn) == Success(NodalState(r.value, order', used', diff[..]))
    ensures r.Success? ==> forall g :: 0 <= g < visited.Length ==> (visited[g] <==> g in used')
  {
    order', used' := order, used;
    if visited[gn] {
      return Success(cache), order', used';
    }
    visited[gn] := true;
    var located := Locate(t.locator, |t.coarse.elems|, cache, t.fine.points[gn]);
    if located.Failure? {
      return Failure(located.error), order', used';
    }
    var ce := located.value;
    WriteNodeDiff(t, diff, gn, ce);
    order', used' := order + [gn], used[gn := ce];
    r := Success(ce);
  }

  /**
   * The nodal-difference sweep: every node of every fine element, skipping
   * the ones already marked, is marked, located through the remembered coarse
   * element (seeded again with coarse element 0) and has its difference
   * entries written. `visited` is the marker array as it ends.
   */
  method NodalDifference(t: Problem, diff: array<real>) returns (r: Result<(), TransferError>, visited: array<bool>)
    requires t.Valid() && diff.Length == |t.fineSoln|
    modifies diff
    ensures fresh(visited) && visited.Length == |t.fine.points|
    ensures r.Success? <==> NodalPass(t, old(diff[..])).Success?
    ensures r.Failure? ==> NodalPass(t, old(diff[..])) == Failure(r.error)
    ensures r.Success? ==> diff[..] == NodalPass(t, old(diff[..])).value.diff
    ensures r.Success? ==> forall gn :: 0 <= gn < |t.fine.points| ==> (visited[gn] <==> gn in NodalPass(t, old(diff[..])).value.used)
    ensures r.Success? ==> forall gn :: 0 <= gn < |t.fine.points| ==> (visited[gn] <==> Referenced(t.fine, gn))
  {
    ghost var d0 := diff[..];
    visited := new bool[|t.fine.points|](_ => false);
    ghost var st := NodalState(0, [], map[], d0);
    var coarseElement: ElemId := 0;
    for e := 0 to |t.fine.elems|
      invariant MeshNodes(t, d0, e) == Success(st)
      invariant st.cache == coarseElement < |t.coarse.elems| && st.diff == diff[..]
      invariant forall gn :: 0 <= gn < visited.Length ==> (visited[gn] <==> gn in st.used)
    {
      var elemNodes := t.fine.elems[e];
      ghost var start := st;
      MeshNodesNext(t, d0, e, start);
      for n := 0 to |elemNodes|
        invariant ElementNodes(t, start, e, n) == Success(st)
        invariant st.cache == coarseElement < |t.coarse.elems| && st.diff == diff[..]
        invariant forall gn :: 0 <= gn < visited.Length ==> (visited[gn] <==> gn in st.used)
      {
        ElementNodesNext(t, start, e, n, st);
        var step;
        ghost var order, used;
        step, order, used := HandleNode(t, diff, visited, elemNodes[n], coarseElement, st.order, st.used);
        if step.Failure? {
          ElementNodesFailurePersists(t, start, e, n + 1, |elemNodes|);
          MeshNodesFailurePersists(t, d0, e + 1, |t.fine.elems|);
          return Failure(step.error), visited;
        }
        coarseElement := step.value;
        st := NodalState(coarseElement, order, used, diff[..]);
      }
    }
    MeshNodesKeeps(t, d0, |t.fine.elems|);
    forall gn ensures ReferencedBefore(t.fine, |t.fine.elems|, gn) <==> Referenced(t.fine, gn) {}
    r := Success(());
  }

  /** A field of n zeros, as the difference field starts. */
  function ZeroField(n: nat): (z: seq<real>)
    ensures |z| == n && forall k :: 0 <= k < n ==> z[k] == 0.0
  {
    seq(n, _ => 0.0)
  }

  /** The readers' output: well-formed meshes, fields laid out by their own name lists, a sound tree. */
  ghost predicate ReaderOutput(t: Problem, coarseNames: seq<string>, fineNames: seq<string>)
  {
    |t.coarse.elems| > 0 && WellFormed(t.coarse) && WellFormed(t.fine)
    && |t.coarseSoln| == |t.coarse.points| * |coarseNames|
    && |t.fineSoln| == |t.fine.points| * |fineNames|
    && t.nv == |fineNames| && t.ivar < t.nv
    && SoundTree(t.locator, |t.coarse.elems|)
  }

  /**
   * The program: too few arguments is a usage error and differing variable
   * name lists are fatal, both before any numerical work; then the error
   * sweep and the nodal-difference sweep into a zero-filled field as long as
   * the fine field, carrying a copy of the fine variable names.
   */
  method Run(argc: nat, t: Problem, coarseNames: seq<string>, fineNames: seq<string>)
    returns (r: Result<Output, TransferError>, ghost used: map<NodeId, ElemId>)
    requires ReaderOutput(t, coarseNames, fineNames)
    ensures argc < RequiredArgs ==> r == Failure(UsageError)
    ensures argc >= RequiredArgs && coarseNames != fineNames ==> r == Failure(VariableNamesDiffer)
    ensures r.Success? ==> argc >= RequiredArgs && coarseNames == fineNames && t.Valid()
    ensures r.Success? ==> t.ErrorSquared(Cached) == Success(r.value.errorSquared)
    ensures r.Success? ==> |r.value.diff| == |t.fineSoln| && r.value.diffNames == fineNames
    ensures r.Success? ==> NodalPass(t, ZeroField(|t.fineSoln|)).Success?
                           && r.value.diff == NodalPass(t, ZeroField(|t.fineSoln|)).value.diff
    ensures r.Success? ==> forall gn :: 0 <= gn < |t.fine.points| && Referenced(t.fine, gn) ==>
      gn in used && NodeDiffed(t, r.value.diff, gn, used[gn])
    ensures r.Success? ==> forall gn, c :: 0 <= gn < |t.fine.points| && 0 <= c < t.nv && !Referenced(t.fine, gn) ==>
      NodalValue(r.value.diff, |t.fine.points|, t.nv, gn, c) == 0.0
    ensures argc >= RequiredArgs && coarseNames == fineNames && t.ErrorSquared(Cached).Failure? ==>
      r == Failure(t.ErrorSquared(Cached).error)
    ensures argc >= RequiredArgs && coarseNames == fineNames && t.ErrorSquared(Cached).Success?
      && (forall gn :: 0 <= gn < |t.fine.points| && Referenced(t.fine, gn) ==> t.locator.find(t.fine.points[gn]).Some?)
      ==> r.Success?
    ensures argc >= RequiredArgs && coarseNames == fineNames && t.ErrorSquared(Cached).Success? ==>
      (r.Success? <==> NodalPass(t, ZeroField(|t.fineSoln|)).Success?)
      && (r.Failure? ==> r.error == NodalPass(t, ZeroField(|t.fineSoln|)).error)
    ensures r.Failure? ==>
      (argc < RequiredArgs && r.error == UsageError)
      || (argc >= RequiredArgs && coarseNames != fineNames && r.error == VariableNamesDiffer)
      || (argc >= RequiredArgs && coarseNames == fineNames && t.ErrorSquared(Cached) == Failure(r.error))
      || (argc >= RequiredArgs && coarseNames == fineNames && t.ErrorSquared(Cached).Success?
          && exists gn :: 0 <= gn < |t.fine.points| && Referenced(t.fine, gn)
               && t.locator.find(t.fine.points[gn]).None? && r.error == PointNotLocated(t.fine.points[gn]))
  {
    used := map[];
    if argc < RequiredArgs {
      return Failure(UsageError), used;
    }
    if fineNames != coarseNames {
      return Failure(VariableNamesDiffer), used;
    }
    var diff := new real[|t.fineSoln|](_ => 0.0);
    ghost var zeros := diff[..];
    assert zeros == ZeroField(|t.fineSoln|);
    var diffNames := fineNames;
    var error := GaussPointError(t);
    if error.Failure? {
      return Failure(error.error), used;
    }
    var pass, visited := NodalDifference(t, diff);
    NodalPassHandlesReferencedOnce(t, zeros);
    if pass.Failure? {
      return Failure(pass.error), used;
    }
    used := NodalPass(t, zeros).value.used;
    forall gn, c | 0 <= gn < |t.fine.points| && 0 <= c < t.nv && !Referenced(t.fine, gn)
      ensures NodalValue(diff[..], |t.fine.points|, t.nv, gn, c) == 0.0
    {
      FieldIndexInBounds(gn, c, |t.fine.points|, t.nv);
    }
    r := Success(Output(error.value, diff[..], diffNames));
  }
}
