/**
 * Topology of the eight-node infinite hexahedron (InfHex8).
 *
 * Nodes 0..3 form the finite base quadrilateral; node k + 4 is the point
 * through which the infinite edge leaving base node k runs. Side 0 is the
 * base, sides 1..4 are the infinite faces; edges 0..3 run round the base
 * and edges 4..7 are the infinite edges.
 */
module InfHex8 {
  import opened Outcomes
  import opened FieldLayout

  /** n_nodes(), n_sides(), n_edges() and n_sub_elem() of an InfHex8. */
  const NodeCount: nat := 8
  const SideCount: nat := 5
  const EdgeCount: nat := 8
  const SubElemCount: nat := 1

  /** Local nodes of each side, in the order the side element numbers them. */
  const SideNodesMap: seq<seq<nat>> :=
    [ [0, 1, 2, 3],
      [0, 1, 4, 5],
      [1, 2, 5, 6],
      [2, 3, 6, 7],
      [3, 0, 7, 4] ]

  /** Local end nodes of each edge. */
  const EdgeNodesMap: seq<seq<nat>> :=
    [ [0, 1], [1, 2], [2, 3], [0, 3],
      [0, 4], [1, 5], [2, 6], [3, 7] ]

  /** The kinds of lower-dimensional element a side or an edge is built as. */
  datatype ElemKind = Edge2 | InfEdge2 | Quad4 | InfQuad4

  /** Number of nodes of an element of the given kind (two per edge, four per face). */
  function KindNodeCount(kind: ElemKind): nat
  {
    match kind
    case Edge2 => 2
    case InfEdge2 => 2
    case Quad4 => 4
    case InfQuad4 => 4
  }

  /** An InfHex8 element: the global ids of its eight nodes and its subdomain. */
  datatype Cell = Cell(nodes: seq<NodeId>, subdomain: nat)
  {
    predicate Valid() { |nodes| == NodeCount }
  }

  /**
   * A side element: either a proxy that refers back to the parent's side
   * index, or a stand-alone face that holds its own node ids.
   */
  datatype Face =
    | SideProxy(kind: ElemKind, side: nat)
    | BuiltFace(kind: ElemKind, subdomain: nat, nodes: seq<NodeId>)

  /** An edge element is always a proxy referring to the parent's edge index. */
  datatype Edge = EdgeProxy(kind: ElemKind, edge: nat)

  /** The output formats an element can describe its connectivity for. */
  datatype IOPackage = Tecplot | Gmv | Gmsh | Vtk | Diva | Tetgen | Ucd | LibMeshIO | InvalidIOPackage

  datatype CellError = InvalidSide(side: nat) | UnsupportedIOPackage(iop: IOPackage)

  // ------------------------------------------------------------------
  // Node classification

  predicate IsVertex(i: nat) { i < 4 }

  predicate IsEdge(i: nat) { !(i < 4) }

  predicate IsFace(i: nat) { false }

  // ------------------------------------------------------------------
  // Node membership, as the early-exit scans of a table row

  /** Scan of row[i..] for n, stopping at the first match. */
  function Occurs(row: seq<nat>, n: nat, i: nat): (r: bool)
    requires i <= |row|
    ensures r <==> n in row[i..]
    decreases |row| - i
  {
    if i == |row| then false
    else if row[i] == n then true
    else
      assert row[i..] == [row[i]] + row[i + 1..];
      Occurs(row, n, i + 1)
  }

  function IsNodeOnSide(n: nat, s: nat): (r: bool)
    requires s < SideCount
    ensures r <==> n in SideNodesMap[s]
  {
    Occurs(SideNodesMap[s], n, 0)
  }

  function IsNodeOnEdge(n: nat, e: nat): (r: bool)
    requires e < EdgeCount
    ensures r <==> n in EdgeNodesMap[e]
  {
    Occurs(EdgeNodesMap[e], n, 0)
  }

  // ------------------------------------------------------------------
  // Side and edge construction

  /** Kind of the element built for side i: the base is finite, the other sides infinite. */
  function SideKind(i: nat): ElemKind
  {
    if i == 0 then Quad4 else InfQuad4
  }

  /**
   * build_side_ptr: an invalid side index is an error; otherwise a proxy side
   * or a face whose node n is the parent's node SideNodesMap[i][n].
   */
  method BuildSidePtr(cell: Cell, i: nat, proxy: bool) returns (r: Result<Face, CellError>)
    requires cell.Valid()
    ensures r.Failure? <==> i >= SideCount
    ensures r.Failure? ==> r.error == InvalidSide(i)
    ensures r.Success? ==>
      (r.value.kind == Quad4 <==> forall k :: 0 <= k < 4 ==> IsVertex(SideNodesMap[i][k]))
    ensures r.Success? ==> r.value.kind == (if i == 0 then Quad4 else InfQuad4)
    ensures r.Success? && proxy ==> r.value == SideProxy(r.value.kind, i)
    ensures r.Success? && !proxy ==>
      r.value.BuiltFace? && r.value.subdomain == cell.subdomain &&
      |r.value.nodes| == KindNodeCount(r.value.kind) &&
      (forall k :: 0 <= k < |r.value.nodes| ==> r.value.nodes[k] == cell.nodes[SideNodesMap[i][k]]) &&
      (forall n :: 0 <= n < NodeCount && IsNodeOnSide(n, i) ==> cell.nodes[n] in r.value.nodes)
  {
    if i >= SideCount {
      return Failure(InvalidSide(i));
    }
    var kind := SideKind(i);
    SideKindMatchesVertices(i);
    if proxy {
      return Success(SideProxy(kind, i));
    }
    var count := KindNodeCount(kind);
    var row := SideNodesMap[i];
    var faceNodes := new NodeId[count];
    for n := 0 to count
      invariant forall k :: 0 <= k < n ==> faceNodes[k] == cell.nodes[row[k]]
    {
      faceNodes[n] := cell.nodes[row[n]];
    }
    var nodes := faceNodes[..];
    forall m | 0 <= m < NodeCount && IsNodeOnSide(m, i)
      ensures cell.nodes[m] in nodes
    {
      var k :| 0 <= k < 4 && row[k] == m;
      assert nodes[k] == cell.nodes[m];
    }
    r := Success(BuiltFace(kind, cell.subdomain, nodes));
  }

  /** build_edge_ptr: a finite Edge2 for the base edges, an InfEdge2 for the others. */
  function BuildEdgePtr(i: nat): (r: Edge)
    requires i < EdgeCount
    ensures r.edge == i
    ensures r.kind == Edge2 <==> IsVertex(EdgeNodesMap[i][0]) && IsVertex(EdgeNodesMap[i][1])
    ensures r.kind == InfEdge2 <==> IsEdge(EdgeNodesMap[i][1])
  {
    if i < 4 then EdgeProxy(Edge2, i) else EdgeProxy(InfEdge2, i)
  }

  // ------------------------------------------------------------------
  // Connectivity for output

  /**
   * connectivity: for Tecplot, the eight node ids renumbered from 1; any
   * other output package is an error.
   */
  method Connectivity(cell: Cell, sc: nat, iop: IOPackage) returns (r: Result<seq<nat>, CellError>)
    requires cell.Valid()
    requires sc < SubElemCount
    requires iop != InvalidIOPackage
    ensures r.Success? <==> iop == Tecplot
    ensures r.Failure? ==> r.error == UnsupportedIOPackage(iop)
    ensures r.Success? ==> |r.value| == NodeCount
    ensures r.Success? ==> forall k :: 0 <= k < |r.value| ==> 1 <= r.value[k] == cell.nodes[k] + 1
  {
    match iop
    case Tecplot =>
      var conn := new nat[8];
      conn[0] := cell.nodes[0] + 1;
      conn[1] := cell.nodes[1] + 1;
      conn[2] := cell.nodes[2] + 1;
      conn[3] := cell.nodes[3] + 1;
      conn[4] := cell.nodes[4] + 1;
      conn[5] := cell.nodes[5] + 1;
      conn[6] := cell.nodes[6] + 1;
      conn[7] := cell.nodes[7] + 1;
      r := Success(conn[..]);
    case _ =>
      r := Failure(UnsupportedIOPackage(iop));
  }

  // ------------------------------------------------------------------
  // Properties of the tables

  /** Exactly one of is_vertex and is_edge holds; the vertices are the base nodes. */
  lemma VertexEdgeFacePartition(n: nat)
    ensures IsVertex(n) != IsEdge(n)
    ensures !IsFace(n)
    ensures IsVertex(n) <==> IsNodeOnSide(n, 0)
  {
  }

  /** Side s of the infinite faces holds base edge s - 1 and the two infinite partners of its ends. */
  lemma {:induction false} InfiniteSideShape(s: nat)
    requires 1 <= s < SideCount
    ensures SideNodesMap[s][0] == s - 1 && SideNodesMap[s][1] == s % 4
    ensures IsVertex(SideNodesMap[s][0]) && IsVertex(SideNodesMap[s][1])
    ensures SideNodesMap[s][2] == SideNodesMap[s][0] + 4 && SideNodesMap[s][3] == SideNodesMap[s][1] + 4
    ensures IsEdge(SideNodesMap[s][2]) && IsEdge(SideNodesMap[s][3])
    ensures forall n :: IsNodeOnSide(n, s) <==> IsNodeOnEdge(n, s - 1) || IsNodeOnEdge(n, 4 + (s - 1)) || IsNodeOnEdge(n, 4 + s % 4)
  {
    if s == 1 {
    } else if s == 2 {
    } else if s == 3 {
    } else {
      assert s == 4;
    }
  }

  /** The base side holds exactly the four vertices, each once. */
  lemma BaseSideShape()
    ensures forall n :: IsNodeOnSide(n, 0) <==> n < 4
    ensures forall j, k :: 0 <= j < k < 4 ==> SideNodesMap[0][j] != SideNodesMap[0][k]
  {
  }

  /** Every one of the eight nodes lies on some side. */
  lemma {:induction false} EveryNodeOnSomeSide(n: nat)
    requires n < NodeCount
    ensures exists s :: 0 <= s < SideCount && IsNodeOnSide(n, s)
  {
    if n < 4 {
      assert IsNodeOnSide(n, 0);
    } else if n == 4 || n == 5 {
      assert IsNodeOnSide(n, 1);
    } else {
      assert IsNodeOnSide(n, 3);
    }
  }

  /** Edges 0..3 join two base nodes; edge k in 4..7 joins base node k - 4 to node k. */
  lemma {:induction false} EdgeTableShape(e: nat)
    requires e < EdgeCount
    ensures e < 4 ==> IsVertex(EdgeNodesMap[e][0]) && IsVertex(EdgeNodesMap[e][1])
    ensures e < 4 ==> forall n :: IsNodeOnEdge(n, e) <==> n == e || n == (e + 1) % 4
    ensures e >= 4 ==> EdgeNodesMap[e][0] == e - 4 && EdgeNodesMap[e][1] == e
  {
    if e == 0 {
    } else if e == 1 {
    } else if e == 2 {
    } else if e == 3 {
    }
  }

  /** Every edge lies on some side: both its ends are nodes of that side. */
  lemma {:induction false} EveryEdgeOnSomeSide(e: nat)
    requires e < EdgeCount
    ensures exists s :: 0 <= s < SideCount && IsNodeOnSide(EdgeNodesMap[e][0], s) && IsNodeOnSide(EdgeNodesMap[e][1], s)
  {
    if e < 4 {
      assert IsNodeOnSide(EdgeNodesMap[e][0], 0) && IsNodeOnSide(EdgeNodesMap[e][1], 0);
    } else {
      assert IsNodeOnSide(EdgeNodesMap[e][0], e - 3) && IsNodeOnSide(EdgeNodesMap[e][1], e - 3);
    }
  }

  /** A side is built as a finite Quad4 exactly when all its nodes are vertices. */
  lemma {:induction false} SideKindMatchesVertices(i: nat)
    requires i < SideCount
    ensures SideKind(i) == Quad4 <==> forall k :: 0 <= k < 4 ==> IsVertex(SideNodesMap[i][k])
    ensures KindNodeCount(SideKind(i)) == |SideNodesMap[i]|
  {
    if i != 0 {
      assert !IsVertex(SideNodesMap[i][2]);
    }
  }
}
