/**
 * The nodal-difference sweep as specification functions: a fold over the
 * fine elements and their local nodes that threads the remembered coarse
 * element, the nodes handled so far (in order, and with the coarse element
 * each was interpolated from) and the difference field. A node already
 * handled is skipped; any other node is located through the remembered
 * element and has all its difference entries written.
 */
module NodalSweep {
  import opened Outcomes
  import opened FieldLayout
  import opened PointLocation
  import opened Transfer

  /**
   * Sweep state: the remembered coarse element, the nodes handled so far in
   * the order they were handled, the coarse element each was interpolated
   * from, and the difference field.
   */
  datatype NodalState = NodalState(cache: ElemId, order: seq<NodeId>, used: map<NodeId, ElemId>, diff: seq<real>)

  /** The remembered element is a coarse element and the field is as long as the fine field. */
  predicate Fits(t: Problem, st: NodalState)
  {
    st.cache < |t.coarse.elems| && |st.diff| == |t.fineSoln|
  }

  // ------------------------------------------------------------------
  // Writing the entries of one node

  /** The field diff with the entries of variables 0..c-1 at node gn set to coarse (in ce) minus fine. */
  function DiffEntries(t: Problem, diff: seq<real>, gn: NodeId, ce: ElemId, c: nat): (r: seq<real>)
    requires t.Valid() && |diff| == |t.fineSoln| && gn < |t.fine.points| && ce < |t.coarse.elems| && c <= t.nv
    ensures |r| == |diff|
  {
    if c == 0 then diff
    else
      var prev := DiffEntries(t, diff, gn, ce, c - 1);
      FieldIndexInBounds(gn, c - 1, |t.fine.points|, t.nv);
      prev[FieldIndex(gn, t.nv, c - 1) :=
        t.CoarseValue(ce, t.fine.points[gn], c - 1) - NodalValue(t.fineSoln, |t.fine.points|, t.nv, gn, c - 1)]
  }

  /**
   * Node gn of the fine mesh has its difference entries written from coarse
   * element ce: ce contains the node's point, and for every variable c the
   * entry is the coarse value there minus the fine nodal value.
   */
  ghost predicate NodeDiffed(t: Problem, diff: seq<real>, gn: NodeId, ce: ElemId)
    requires t.Valid() && |diff| == |t.fineSoln| && gn < |t.fine.points|
  {
    var p := t.fine.points[gn];
    ce < |t.coarse.elems| && t.locator.contains(ce, p) &&
    forall c :: 0 <= c < t.nv ==>
      NodalValue(diff, |t.fine.points|, t.nv, gn, c)
        == t.CoarseValue(ce, p, c) - NodalValue(t.fineSoln, |t.fine.points|, t.nv, gn, c)
  }

  /** Difference entries of every node outside `done` are as they were in `before`. */
  ghost predicate UntouchedOutside(t: Problem, diff: seq<real>, before: seq<real>, done: set<NodeId>)
    requires t.Valid() && |diff| == |before| == |t.fineSoln|
  {
    forall g, c :: 0 <= g < |t.fine.points| && 0 <= c < t.nv && g !in done ==>
      NodalValue(diff, |t.fine.points|, t.nv, g, c) == NodalValue(before, |t.fine.points|, t.nv, g, c)
  }

  /**
   * Writing the first c variables of node gn sets exactly those entries to
   * coarse minus fine and leaves every other (node, variable) pair alone.
   */
  lemma {:induction false} DiffEntriesWrites(t: Problem, diff: seq<real>, gn: NodeId, ce: ElemId, c: nat)
    requires t.Valid() && |diff| == |t.fineSoln| && gn < |t.fine.points| && ce < |t.coarse.elems| && c <= t.nv
    ensures forall c' :: 0 <= c' < c ==>
      NodalValue(DiffEntries(t, diff, gn, ce, c), |t.fine.points|, t.nv, gn, c')
        == t.CoarseValue(ce, t.fine.points[gn], c') - NodalValue(t.fineSoln, |t.fine.points|, t.nv, gn, c')
    ensures forall g, c' :: 0 <= g < |t.fine.points| && c <= c' < t.nv ==>
      NodalValue(DiffEntries(t, diff, gn, ce, c), |t.fine.points|, t.nv, g, c') == NodalValue(diff, |t.fine.points|, t.nv, g, c')
    ensures UntouchedOutside(t, DiffEntries(t, diff, gn, ce, c), diff, {gn})
  {
    if c > 0 {
      DiffEntriesWrites(t, diff, gn, ce, c - 1);
      var prev := DiffEntries(t, diff, gn, ce, c - 1);
      WriteChangesOnePair(prev, |t.fine.points|, t.nv, gn, c - 1,
        t.CoarseValue(ce, t.fine.points[gn], c - 1) - NodalValue(t.fineSoln, |t.fine.points|, t.nv, gn, c - 1));
    }
  }

  /** Writing all variables of gn from a containing element leaves gn diffed and every other node untouched. */
  lemma WriteAllDiffs(t: Problem, diff: seq<real>, gn: NodeId, ce: ElemId)
    requires t.Valid() && |diff| == |t.fineSoln| && gn < |t.fine.points| && ce < |t.coarse.elems|
    requires t.locator.contains(ce, t.fine.points[gn])
    ensures NodeDiffed(t, DiffEntries(t, diff, gn, ce, t.nv), gn, ce)
    ensures UntouchedOutside(t, DiffEntries(t, diff, gn, ce, t.nv), diff, {gn})
  {
    DiffEntriesWrites(t, diff, gn, ce, t.nv);
  }

  // ------------------------------------------------------------------
  // The sweep

  /** Fine node gn: skipped when already handled, otherwise located and diffed. */
  function NodeStep(t: Problem, st: NodalState, gn: NodeId): (r: Result<NodalState, TransferError>)
    requires t.Valid() && Fits(t, st) && gn < |t.fine.points|
    ensures r.Success? ==> Fits(t, r.value)
  {
    if gn in st.used then Success(st)
    else
      match Locate(t.locator, |t.coarse.elems|, st.cache, t.fine.points[gn])
      case Failure(err) => Failure(err)
      case Success(ce) => Success(NodalState(ce, st.order + [gn], st.used[gn := ce], DiffEntries(t, st.diff, gn, ce, t.nv)))
  }

  /** The first k local nodes of fine element e, from state st. */
  function ElementNodes(t: Problem, st: NodalState, e: ElemId, k: nat): (r: Result<NodalState, TransferError>)
    requires t.Valid() && Fits(t, st) && e < |t.fine.elems| && k <= |t.fine.elems[e]|
    ensures r.Success? ==> Fits(t, r.value)
  {
    if k == 0 then Success(st)
    else
      match ElementNodes(t, st, e, k - 1)
      case Failure(err) => Failure(err)
      case Success(s) => NodeStep(t, s, t.fine.elems[e][k - 1])
  }

  /** The first m fine elements, from coarse element 0, nothing handled and the field d0. */
  function MeshNodes(t: Problem, d0: seq<real>, m: nat): (r: Result<NodalState, TransferError>)
    requires t.Valid() && |d0| == |t.fineSoln| && m <= |t.fine.elems|
    ensures r.Success? ==> Fits(t, r.value)
  {
    if m == 0 then Success(NodalState(0, [], map[], d0))
    else
      match MeshNodes(t, d0, m - 1)
      case Failure(err) => Failure(err)
      case Success(s) => ElementNodes(t, s, m - 1, |t.fine.elems[m - 1]|)
  }

  /** The whole nodal-difference pass over the field d0. */
  function NodalPass(t: Problem, d0: seq<real>): Result<NodalState, TransferError>
    requires t.Valid() && |d0| == |t.fineSoln|
  {
    MeshNodes(t, d0, |t.fine.elems|)
  }

  /** Extending a successful prefix of an element by one local node is one NodeStep. */
  lemma ElementNodesNext(t: Problem, st: NodalState, e: ElemId, k: nat, s: NodalState)
    requires t.Valid() && Fits(t, st) && e < |t.fine.elems| && k < |t.fine.elems[e]|
    requires ElementNodes(t, st, e, k) == Success(s)
    ensures Fits(t, s) && t.fine.elems[e][k] < |t.fine.points|
    ensures ElementNodes(t, st, e, k + 1) == NodeStep(t, s, t.fine.elems[e][k])
  {
    assert NodesBelow(t.fine.elems[e], |t.fine.points|);
  }

  /** Extending a successful prefix of the mesh by one fine element is one ElementNodes. */
  lemma MeshNodesNext(t: Problem, d0: seq<real>, m: nat, s: NodalState)
    requires t.Valid() && |d0| == |t.fineSoln| && m < |t.fine.elems|
    requires MeshNodes(t, d0, m) == Success(s)
    ensures Fits(t, s)
    ensures MeshNodes(t, d0, m + 1) == ElementNodes(t, s, m, |t.fine.elems[m]|)
  {
  }

  // ------------------------------------------------------------------
  // A failure ends the sweep

  lemma {:induction false} ElementNodesFailurePersists(t: Problem, st: NodalState, e: ElemId, k: nat, k': nat)
    requires t.Valid() && Fits(t, st) && e < |t.fine.elems| && k <= k' <= |t.fine.elems[e]|
    requires ElementNodes(t, st, e, k).Failure?
    ensures ElementNodes(t, st, e, k') == ElementNodes(t, st, e, k)
  {
    if k < k' {
      ElementNodesFailurePersists(t, st, e, k, k' - 1);
    }
  }

  lemma {:induction false} MeshNodesFailurePersists(t: Problem, d0: seq<real>, m: nat, m': nat)
    requires t.Valid() && |d0| == |t.fineSoln| && m <= m' <= |t.fine.elems|
    requires MeshNodes(t, d0, m).Failure?
    ensures MeshNodes(t, d0, m') == MeshNodes(t, d0, m)
  {
    if m < m' {
      MeshNodesFailurePersists(t, d0, m, m' - 1);
    }
  }

  // ------------------------------------------------------------------
  // Every referenced node is handled exactly once

  /**
   * What the sweep keeps: `order` lists each handled node once and exactly
   * the nodes of `used`; every handled node is diffed from its element; the
   * other nodes' entries are those of d0.
   */
  ghost predicate Consistent(t: Problem, d0: seq<real>, st: NodalState)
    requires t.Valid() && |d0| == |t.fineSoln|
  {
    Fits(t, st)
    && (forall gn :: gn in st.order <==> gn in st.used)
    && (forall i, j :: 0 <= i < j < |st.order| ==> st.order[i] != st.order[j])
    && (forall gn :: gn in st.used ==> gn < |t.fine.points| && NodeDiffed(t, st.diff, gn, st.used[gn]))
    && UntouchedOutside(t, st.diff, d0, st.used.Keys)
  }

  /** The node gn is a node of one of the first e fine elements. */
  ghost predicate ReferencedBefore(m: Mesh, e: nat, gn: NodeId)
    requires e <= |m.elems|
  {
    exists x :: 0 <= x < e && gn in m.elems[x]
  }

  /** Handling a new node appends it once, diffs it, and keeps the other nodes' entries. */
  lemma NodeStepKeeps(t: Problem, d0: seq<real>, st: NodalState, gn: NodeId)
    requires t.Valid() && |d0| == |t.fineSoln| && gn < |t.fine.points| && Consistent(t, d0, st)
    requires NodeStep(t, st, gn).Success?
    ensures Consistent(t, d0, NodeStep(t, st, gn).value)
    ensures NodeStep(t, st, gn).value.used.Keys == st.used.Keys + {gn}
  {
    if gn !in st.used {
      var s := NodeStep(t, st, gn).value;
      var ce := s.used[gn];
      WriteAllDiffs(t, st.diff, gn, ce);
      forall g | g in s.used
        ensures g < |t.fine.points| && NodeDiffed(t, s.diff, g, s.used[g])
      {
        if g != gn {
          assert NodeDiffed(t, st.diff, g, st.used[g]);
        }
      }
      forall i, j | 0 <= i < j < |s.order|
        ensures s.order[i] != s.order[j]
      {
        if j == |st.order| {
          assert st.order[i] in st.order;
        }
      }
    }
  }

  lemma {:induction false} ElementNodesKeeps(t: Problem, d0: seq<real>, st: NodalState, e: ElemId, k: nat)
    requires t.Valid() && |d0| == |t.fineSoln| && e < |t.fine.elems| && k <= |t.fine.elems[e]|
    requires Consistent(t, d0, st) && ElementNodes(t, st, e, k).Success?
    ensures Consistent(t, d0, ElementNodes(t, st, e, k).value)
    ensures forall gn :: gn in ElementNodes(t, st, e, k).value.used <==> gn in st.used || gn in t.fine.elems[e][..k]
  {
    if k > 0 {
      ElementNodesKeeps(t, d0, st, e, k - 1);
      var s := ElementNodes(t, st, e, k - 1).value;
      var gn := t.fine.elems[e][k - 1];
      assert NodesBelow(t.fine.elems[e], |t.fine.points|);
      NodeStepKeeps(t, d0, s, gn);
      assert t.fine.elems[e][..k] == t.fine.elems[e][..k - 1] + [gn];
    }
  }

  lemma {:induction false} MeshNodesKeeps(t: Problem, d0: seq<real>, m: nat)
    requires t.Valid() && |d0| == |t.fineSoln| && m <= |t.fine.elems|
    requires MeshNodes(t, d0, m).Success?
    ensures Consistent(t, d0, MeshNodes(t, d0, m).value)
    ensures forall gn :: gn in MeshNodes(t, d0, m).value.used <==> ReferencedBefore(t.fine, m, gn)
  {
    if m > 0 {
      MeshNodesKeeps(t, d0, m - 1);
      var s := MeshNodes(t, d0, m - 1).value;
      var elemNodes := t.fine.elems[m - 1];
      ElementNodesKeeps(t, d0, s, m - 1, |elemNodes|);
      assert elemNodes[..|elemNodes|] == elemNodes;
      forall gn
        ensures ReferencedBefore(t.fine, m, gn) <==> ReferencedBefore(t.fine, m - 1, gn) || gn in elemNodes
      {
        if ReferencedBefore(t.fine, m, gn) && !(gn in elemNodes) {
          var x :| 0 <= x < m && gn in t.fine.elems[x];
          assert x < m - 1;
        }
      }
    }
  }

  /** A failed node step names a node whose point the tree cannot find. */
  lemma {:induction false} ElementNodesFailure(t: Problem, st: NodalState, e: ElemId, k: nat)
    requires t.Valid() && Fits(t, st) && e < |t.fine.elems| && k <= |t.fine.elems[e]|
    requires ElementNodes(t, st, e, k).Failure?
    ensures exists j :: 0 <= j < k && t.locator.find(t.fine.points[t.fine.elems[e][j]]).None?
                 && ElementNodes(t, st, e, k).error == PointNotLocated(t.fine.points[t.fine.elems[e][j]])
  {
    assert NodesBelow(t.fine.elems[e], |t.fine.points|);
    if ElementNodes(t, st, e, k - 1).Failure? {
      ElementNodesFailure(t, st, e, k - 1);
      var j :| 0 <= j < k - 1 && t.locator.find(t.fine.points[t.fine.elems[e][j]]).None?
        && ElementNodes(t, st, e, k - 1).error == PointNotLocated(t.fine.points[t.fine.elems[e][j]]);
      assert 0 <= j < k;
    } else {
      assert t.locator.find(t.fine.points[t.fine.elems[e][k - 1]]).None?;
    }
  }

  lemma {:induction false} MeshNodesFailure(t: Problem, d0: seq<real>, m: nat)
    requires t.Valid() && |d0| == |t.fineSoln| && m <= |t.fine.elems|
    requires MeshNodes(t, d0, m).Failure?
    ensures exists gn :: 0 <= gn < |t.fine.points| && Referenced(t.fine, gn)
                 && t.locator.find(t.fine.points[gn]).None? && MeshNodes(t, d0, m).error == PointNotLocated(t.fine.points[gn])
  {
    if MeshNodes(t, d0, m - 1).Failure? {
      MeshNodesFailure(t, d0, m - 1);
    } else {
      var s := MeshNodes(t, d0, m - 1).value;
      ElementNodesFailure(t, s, m - 1, |t.fine.elems[m - 1]|);
      var j :| 0 <= j < |t.fine.elems[m - 1]| && t.locator.find(t.fine.points[t.fine.elems[m - 1][j]]).None?
        && MeshNodes(t, d0, m).error == PointNotLocated(t.fine.points[t.fine.elems[m - 1][j]]);
      var gn := t.fine.elems[m - 1][j];
      assert NodesBelow(t.fine.elems[m - 1], |t.fine.points|);
      assert gn in t.fine.elems[m - 1];
      assert Referenced(t.fine, gn);
    }
  }

  /**
   * The pass handles exactly the nodes some fine element references, each
   * once: a successful pass lists every referenced node exactly once in the
   * order it was handled, writes each from a coarse element containing its
   * point, and leaves every unreferenced node's entries as in d0. A failed
   * pass names a referenced node whose point the tree cannot find.
   */
  lemma NodalPassHandlesReferencedOnce(t: Problem, d0: seq<real>)
    requires t.Valid() && |d0| == |t.fineSoln|
    ensures NodalPass(t, d0).Success? ==>
      var s := NodalPass(t, d0).value;
      (forall i, j :: 0 <= i < j < |s.order| ==> s.order[i] != s.order[j])
      && (forall gn :: gn in s.order <==> Referenced(t.fine, gn))
      && (forall gn :: gn in s.order ==> gn in s.used && gn < |t.fine.points| && NodeDiffed(t, s.diff, gn, s.used[gn]))
      && (forall gn, c :: 0 <= gn < |t.fine.points| && 0 <= c < t.nv && !Referenced(t.fine, gn) ==>
            NodalValue(s.diff, |t.fine.points|, t.nv, gn, c) == NodalValue(d0, |t.fine.points|, t.nv, gn, c))
    ensures NodalPass(t, d0).Failure? ==>
      exists gn :: 0 <= gn < |t.fine.points| && Referenced(t.fine, gn)
        && t.locator.find(t.fine.points[gn]).None? && NodalPass(t, d0).error == PointNotLocated(t.fine.points[gn])
  {
    if NodalPass(t, d0).Success? {
      MeshNodesKeeps(t, d0, |t.fine.elems|);
      var s := NodalPass(t, d0).value;
      forall gn
        ensures ReferencedBefore(t.fine, |t.fine.elems|, gn) <==> Referenced(t.fine, gn)
      {
      }
    } else {
      MeshNodesFailure(t, d0, |t.fine.elems|);
    }
  }

  /**
   * The remembered element does not change the outcome of a successful pass:
   * where every referenced node's point lies in exactly one coarse element,
   * which the tree returns, each referenced node is diffed from the element
   * the tree search alone would give.
   */
  lemma NodalPassIgnoresCache(t: Problem, d0: seq<real>)
    requires t.Valid() && |d0| == |t.fineSoln|
    requires forall gn :: 0 <= gn < |t.fine.points| && Referenced(t.fine, gn) ==>
      UniquelyLocated(t.locator, |t.coarse.elems|, t.fine.points[gn])
    ensures NodalPass(t, d0).Success? ==>
      forall gn :: 0 <= gn < |t.fine.points| && Referenced(t.fine, gn) ==>
        gn in NodalPass(t, d0).value.used
        && t.locator.find(t.fine.points[gn]) == Some(NodalPass(t, d0).value.used[gn])
        && NodeDiffed(t, NodalPass(t, d0).value.diff, gn, t.locator.find(t.fine.points[gn]).value)
  {
    NodalPassHandlesReferencedOnce(t, d0);
  }

  /**
   * Constant fields: where the coarse field's variable c is the constant vc,
   * the fine field's is vf and the coarse shape functions sum to one, every
   * written difference entry is vc - vf (1.0 for a coarse field of 2.0 over a
   * fine field of 1.0).
   */
  lemma ConstantFieldsGiveConstantDifference(t: Problem, diff: seq<real>, gn: NodeId, ce: ElemId, c: nat, vc: real, vf: real)
    requires t.Valid() && |diff| == |t.fineSoln| && gn < |t.fine.points| && c < t.nv
    requires NodeDiffed(t, diff, gn, ce)
    requires ConstantField(t.coarseSoln, |t.coarse.points|, t.nv, c, vc) && CoarsePartitionOfUnity(t)
    requires ConstantField(t.fineSoln, |t.fine.points|, t.nv, c, vf)
    ensures NodalValue(diff, |t.fine.points|, t.nv, gn, c) == vc - vf
  {
    CoarseValueOfConstant(t, ce, t.fine.points[gn], c, vc);
  }
}
