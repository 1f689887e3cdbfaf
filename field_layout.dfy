/**
 * Nodal field vectors: the value of variable c at node gn of a field with
 * nv variables lives at index gn * nv + c, and a value at a point inside an
 * element is the sum, over the element's local nodes, of the nodal value
 * times that node's interpolation weight at the point.
 */
module FieldLayout {

  type NodeId = nat

  /** Position of (node gn, variable c) in a node-major field with nv variables. */
  function FieldIndex(gn: NodeId, nv: nat, c: nat): (k: nat)
    requires c < nv
    ensures k / nv == gn && k % nv == c
  {
    DivModOfFieldIndex(gn, nv, c);
    gn * nv + c
  }

  /** The layout is invertible: the node is the quotient and the variable the remainder. */
  lemma DivModOfFieldIndex(gn: NodeId, nv: nat, c: nat)
    requires c < nv
    ensures (gn * nv + c) / nv == gn && (gn * nv + c) % nv == c
  {
    var k := gn * nv + c;
    var q, m := k / nv, k % nv;
    assert k == q * nv + m && 0 <= m < nv;
    if q < gn {
      MulMonotone(q + 1, gn, nv);
      assert false;
    } else if gn < q {
      MulMonotone(gn + 1, q, nv);
      assert false;
    }
  }

  lemma MulMonotone(a: nat, b: nat, n: nat)
    requires a <= b
    ensures a * n <= b * n
  {
  }

  /** A field of nNodes * nv entries holds every (node, variable) pair of its layout. */
  lemma {:induction false} FieldIndexInBounds(gn: NodeId, c: nat, nNodes: nat, nv: nat)
    requires gn < nNodes && c < nv
    ensures FieldIndex(gn, nv, c) < nNodes * nv
  {
    MulMonotone(gn + 1, nNodes, nv);
    assert gn * nv + c < (gn + 1) * nv;
  }

  /** Distinct (node, variable) pairs occupy distinct entries. */
  lemma FieldIndexInjective(g1: NodeId, c1: nat, g2: NodeId, c2: nat, nv: nat)
    requires c1 < nv && c2 < nv
    ensures FieldIndex(g1, nv, c1) == FieldIndex(g2, nv, c2) <==> g1 == g2 && c1 == c2
  {
  }

  /** The value of variable c at node gn. */
  function NodalValue(field: seq<real>, nNodes: nat, nv: nat, gn: NodeId, c: nat): real
    requires |field| == nNodes * nv && gn < nNodes && c < nv
  {
    FieldIndexInBounds(gn, c, nNodes, nv);
    field[FieldIndex(gn, nv, c)]
  }

  /** Writing the entry of (gn, c) changes the value of that pair and of no other pair. */
  lemma WriteChangesOnePair(field: seq<real>, nNodes: nat, nv: nat, gn: NodeId, c: nat, x: real)
    requires |field| == nNodes * nv && gn < nNodes && c < nv
    ensures FieldIndex(gn, nv, c) < |field|
    ensures NodalValue(field[FieldIndex(gn, nv, c) := x], nNodes, nv, gn, c) == x
    ensures forall g, c' :: 0 <= g < nNodes && 0 <= c' < nv && (g != gn || c' != c) ==>
      NodalValue(field[FieldIndex(gn, nv, c) := x], nNodes, nv, g, c') == NodalValue(field, nNodes, nv, g, c')
  {
    FieldIndexInBounds(gn, c, nNodes, nv);
    var updated := field[FieldIndex(gn, nv, c) := x];
    forall g, c' | 0 <= g < nNodes && 0 <= c' < nv && (g != gn || c' != c)
      ensures NodalValue(updated, nNodes, nv, g, c') == NodalValue(field, nNodes, nv, g, c')
    {
      FieldIndexInjective(g, c', gn, c, nv);
      FieldIndexInBounds(g, c', nNodes, nv);
    }
  }

  /** All node ids of an element are below the mesh's node count. */
  predicate NodesBelow(nodes: seq<NodeId>, nNodes: nat)
  {
    forall i :: 0 <= i < |nodes| ==> nodes[i] < nNodes
  }

  /** Sum over the first k local nodes of nodal value of variable c times weight. */
  function NodalSum(field: seq<real>, nNodes: nat, nv: nat, c: nat,
                    nodes: seq<NodeId>, w: nat -> real, k: nat): real
    requires |field| == nNodes * nv && c < nv
    requires NodesBelow(nodes, nNodes) && k <= |nodes|
  {
    if k == 0 then 0.0
    else NodalSum(field, nNodes, nv, c, nodes, w, k - 1) + NodalValue(field, nNodes, nv, nodes[k - 1], c) * w(k - 1)
  }

  /** Sum of the first k weights. */
  function WeightSum(w: nat -> real, k: nat): real
  {
    if k == 0 then 0.0 else WeightSum(w, k - 1) + w(k - 1)
  }

  /**
   * When the field is constant on the element's nodes, the interpolated value
   * is that constant times the sum of the weights.
   */
  lemma {:induction false} NodalSumOfConstant(field: seq<real>, nNodes: nat, nv: nat, c: nat,
                                              nodes: seq<NodeId>, w: nat -> real, k: nat, v: real)
    requires |field| == nNodes * nv && c < nv
    requires NodesBelow(nodes, nNodes) && k <= |nodes|
    requires forall i :: 0 <= i < k ==> NodalValue(field, nNodes, nv, nodes[i], c) == v
    ensures NodalSum(field, nNodes, nv, c, nodes, w, k) == v * WeightSum(w, k)
  {
    if k > 0 {
      NodalSumOfConstant(field, nNodes, nv, c, nodes, w, k - 1, v);
      var before, last := WeightSum(w, k - 1), w(k - 1);
      assert NodalValue(field, nNodes, nv, nodes[k - 1], c) == v;
      assert NodalSum(field, nNodes, nv, c, nodes, w, k) == v * before + v * last;
      assert v * before + v * last == v * (before + last);
    }
  }

  /** The interpolation loop: accumulates nodal value times weight over the element's nodes. */
  method Interpolate(field: seq<real>, nNodes: nat, nv: nat, c: nat,
                     nodes: seq<NodeId>, w: nat -> real) returns (s: real)
    requires |field| == nNodes * nv && c < nv
    requires NodesBelow(nodes, nNodes)
    ensures s == NodalSum(field, nNodes, nv, c, nodes, w, |nodes|)
  {
    s := 0.0;
    for i := 0 to |nodes|
      invariant s == NodalSum(field, nNodes, nv, c, nodes, w, i)
    {
      FieldIndexInBounds(nodes[i], c, nNodes, nv);
      s := s + field[FieldIndex(nodes[i], nv, c)] * w(i);
    }
  }
}
