# grid2grid and InfHex8 in Dafny

This project models two pieces of libMesh:

- **grid2grid**, the mesh-to-mesh error program. It reads a coarse and a fine mesh together with a nodal solution on each. It checks that the two solutions carry the same variable names. It then integrates the squared difference of one selected variable over the fine mesh's Gauss points, finding for every Gauss point the coarse element that contains it. The last coarse element found is tried first, and the octree is searched only when that element does not contain the point. Last, it writes a nodal difference field (coarse minus fine, every variable) for every fine-mesh node that some fine element references, handling each such node once. Nodes no element references keep 0.
- **InfHex8**, the eight-node infinite hexahedron. Its base is nodes 0-3 and its outer nodes are 4-7. The model covers its side and edge tables, the vertex/edge/face node classification, the node-on-side and node-on-edge queries, building a side or an edge, and 1-based Tecplot connectivity.

Modules:

- `Outcomes`: `Option` and `Result`.
- `InfHex8` (`inf_hex8.dfy`): the cell. A fatal `libmesh_error_msg` is a `Failure`. A `libmesh_assert_less` is a `requires`, except in `BuildSidePtr`. There, a side index of 5 or more also reaches the `libmesh_error_msg` of the `default` branch (cell_inf_hex8.C lines 125-126 and 154-155). So the model keeps it as a `Failure` rather than excluding it.
- `FieldLayout` (`field_layout.dfy`): the node-major layout `gn*nv + c` of a nodal field. It also holds the interpolation sum `NodalSum` and the loop `Interpolate` that computes it.
- `PointLocation` (`point_location.dfy`):
  - the per-element containment test and the octree search, both given as functions;
  - `SearchTree`, the tree lookup alone;
  - `Locate`, the lookup through the remembered element.
- `Transfer` (`transfer.dfy`): one run's inputs (`Problem`) and the Gauss-point error sweep as specification functions. The sweep is a fold that threads the remembered coarse element and the running sum. It takes a `Strategy`: `Cached` as the program does it, or `TreeOnly` as a reference.
- `NodalSweep` (`nodal_sweep.dfy`): the nodal-difference sweep as specification functions. It is a fold over fine elements and their local nodes that threads four things: the remembered coarse element, the handled nodes in order, the coarse element each was taken from, and the difference field. An already-handled node is skipped. The module also proves that the sweep handles exactly the referenced nodes, each once.
- `Grid2Grid` (`grid2grid.dfy`): the program's loops as methods. `GaussPointError` is proved equal to `ErrorSquared(Cached)`. `NodalDifference` marks nodes in a `visited` array and writes into the difference array. It is proved equal to `NodalPass`: same outcome, same field, and marks on exactly the handled nodes. `Run` covers the argument and name checks, then both sweeps.

## Model

| member | source | states |
|---|---|---|
| InfHex8.Occurs | src/geom/cell_inf_hex8.C:89-92 | the scan of a table row from position i answers true exactly when n occurs in the rest of the row |
| InfHex8.IsNodeOnSide | src/geom/cell_inf_hex8.C:85-93 | for a side below 5, true exactly when n is one of that side's four table entries |
| InfHex8.IsNodeOnEdge | src/geom/cell_inf_hex8.C:95-103 | for an edge below 8, true exactly when n is one of that edge's two table entries |
| InfHex8.BuildSidePtr | src/geom/cell_inf_hex8.C:105-169 | fails exactly for a side index of 5 or more, as an invalid side. Side 0 gives a Quad4 and sides 1-4 give an InfQuad4. A proxy records kind and side. A built face has as many nodes as its kind, and node k is the cell's node at side_nodes_map[i][k]. It copies the subdomain and holds every cell node that lies on the side |
| InfHex8.BuildEdgePtr | src/geom/cell_inf_hex8.C:172-180 | the edge keeps its index. It is an Edge2 exactly when both ends are vertices, and an InfEdge2 exactly when its second end is an outer node |
| InfHex8.Connectivity | src/geom/cell_inf_hex8.C:244-271 | succeeds exactly for Tecplot, and every other package is an unsupported-package error. On success it gives eight entries, and entry k is node id k plus one |
| InfHex8.VertexEdgeFacePartition | src/geom/cell_inf_hex8.C:66-83 | of the classifiers IsVertex, IsEdge and IsFace: every node is exactly one of vertex or edge node, none is a face node, and the vertices are the nodes of the base side |
| InfHex8.InfiniteSideShape | src/geom/cell_inf_hex8.C:41-48 | side s in 1..4 is base nodes s-1 and s mod 4 followed by their outer partners (+4). Its nodes are exactly those of base edge s-1 and infinite edges 4+(s-1) and 4+(s mod 4) |
| InfHex8.BaseSideShape | src/geom/cell_inf_hex8.C:41-48 | side 0 holds exactly nodes 0-3, each once |
| InfHex8.EveryNodeOnSomeSide | src/geom/cell_inf_hex8.C:41-48 | each of the eight nodes lies on some side |
| InfHex8.EdgeTableShape | src/geom/cell_inf_hex8.C:50-60 | edges 0-3 join two base nodes, namely e and (e+1) mod 4. Edge e in 4-7 joins base node e-4 to outer node e |
| InfHex8.EveryEdgeOnSomeSide | src/geom/cell_inf_hex8.C:41-60 | both ends of every edge lie on a common side |
| InfHex8.SideKindMatchesVertices | src/geom/cell_inf_hex8.C:110-152 | a side is built as a Quad4 exactly when all its nodes are vertices, and the built kind has as many nodes as the side's table row |
| FieldLayout.FieldIndex | libmesh/src/apps/grid2grid.cc:264-269 | the index of (gn, c) divided by nv gives gn and leaves remainder c |
| FieldLayout.FieldIndexInBounds | libmesh/src/apps/grid2grid.cc:163-166 | every (node, variable) pair of a mesh lies inside a field of n_nodes*nv entries |
| FieldLayout.FieldIndexInjective | libmesh/src/apps/grid2grid.cc:258-270 | two pairs share an index exactly when they are the same pair |
| FieldLayout.WriteChangesOnePair | libmesh/src/apps/grid2grid.cc:269 | writing the entry of (gn, c) sets that pair's value and leaves every other pair's value unchanged |
| FieldLayout.NodalSumOfConstant | libmesh/src/apps/grid2grid.cc:195-204 | with a field constant on the element's nodes, the interpolated value is that constant times the sum of the weights |
| FieldLayout.Interpolate | libmesh/src/apps/grid2grid.cc:161-167 | the accumulation loop returns the sum over all the element's nodes of nodal value times weight |
| PointLocation.SearchTree | libmesh/src/apps/grid2grid.cc:178-180 | a hit is a coarse element containing the point. It fails, as point-not-located, exactly when the tree finds nothing |
| PointLocation.Locate | libmesh/src/apps/grid2grid.cc:173-187 | a remembered element that contains the point is returned unchanged, and otherwise the answer is the tree's. A success contains the point. It fails exactly when the remembered element misses and the tree finds nothing |
| PointLocation.HitDoesNotSearch | libmesh/src/apps/grid2grid.cc:173 | on a hit, the answer does not depend on the tree at all |
| PointLocation.LocateAgreesWithSearch | libmesh/src/apps/grid2grid.cc:240-254 | at a point that lies in exactly one element, which the tree returns, the cached lookup equals the tree search, whatever element is remembered |
| Transfer.Problem.Lookup | libmesh/src/apps/grid2grid.cc:173-187 | under either strategy, a found element is a coarse element that contains the point |
| Transfer.Problem.GaussStep | libmesh/src/apps/grid2grid.cc:157-207 | a successful step leaves a valid coarse element remembered, so the lookup at line 173 always has an element |
| Transfer.Problem.ElementSweep | libmesh/src/apps/grid2grid.cc:155-208 | after any prefix of an element's Gauss points the remembered element is a coarse element |
| Transfer.Problem.MeshSweep | libmesh/src/apps/grid2grid.cc:139-212 | starting from coarse element 0, after any prefix of the fine elements the remembered element is a coarse element |
| Transfer.ElementSweepFailurePersists | libmesh/src/apps/grid2grid.cc:180 | once a Gauss point is not located, every longer prefix of the element fails with the same error |
| Transfer.MeshSweepFailurePersists | libmesh/src/apps/grid2grid.cc:180 | once a fine element's sweep fails, every longer prefix of the mesh fails with the same error |
| Transfer.ElementSweepStep | libmesh/src/apps/grid2grid.cc:155-208 | extending a successful prefix by one Gauss point is exactly one GaussStep |
| Transfer.ElementSweepIgnoresCache | libmesh/src/apps/grid2grid.cc:170-187 | when each swept Gauss point of the element lies in exactly one coarse element, which the tree returns, the cached and tree-only element sweeps give the same result (outcome, remembered element and sum), whatever element is remembered |
| Transfer.MeshSweepIgnoresCache | libmesh/src/apps/grid2grid.cc:170-187 | when every Gauss point of the swept fine elements lies in exactly one coarse element, which the tree returns, the cached and tree-only mesh sweeps agree on outcome, remembered element and error sum |
| Transfer.CacheDoesNotChangeError | libmesh/src/apps/grid2grid.cc:170-187 | when every Gauss point lies in exactly one coarse element, which the tree returns, the squared error computed with the remembered element equals the one computed by searching the tree every time |
| Transfer.ErrorIsNonNegative | libmesh/src/apps/grid2grid.cc:207 | with non-negative JxW weights the squared error, when computed, is at least 0, so its square root exists |
| Transfer.MeshSweepGrows | libmesh/src/apps/grid2grid.cc:207 | the running sum never drops below 0 across fine elements |
| Transfer.GaussStepGrows | libmesh/src/apps/grid2grid.cc:207 | one Gauss point never decreases the sum |
| Transfer.ElementSweepGrows | libmesh/src/apps/grid2grid.cc:155-208 | an element's Gauss points never decrease the sum |
| Transfer.ErrorVanishesWhenFieldsAgree | libmesh/src/apps/grid2grid.cc:137-207 | when the coarse value equals the fine value at every Gauss point, a computed squared error is 0 |
| Transfer.MeshSweepStaysZero | libmesh/src/apps/grid2grid.cc:139-212 | with agreeing fields the sum stays 0 over every prefix of the fine elements |
| Transfer.ElementSweepStaysZero | libmesh/src/apps/grid2grid.cc:155-208 | with agreeing fields a zero sum stays 0 over an element's Gauss points |
| Transfer.CoarseValueOfConstant | libmesh/src/apps/grid2grid.cc:195-204 | a constant coarse field with shape functions summing to one interpolates to that constant anywhere |
| Transfer.FineValueOfConstant | libmesh/src/apps/grid2grid.cc:161-167 | a constant fine field with phi summing to one has that constant at every Gauss point |
| Transfer.ConstantFieldsHaveZeroError | libmesh/src/apps/grid2grid.cc:137-214 | two equal constant fields, with both sets of shape functions summing to one, give a squared error of 0 |
| Grid2Grid.GaussPoint | libmesh/src/apps/grid2grid.cc:157-207 | the body of the Gauss-point loop computes exactly one GaussStep with the remembered element |
| Grid2Grid.GaussPointError | libmesh/src/apps/grid2grid.cc:137-214 | the nested element and Gauss-point loops, seeded with coarse element 0 and a zero sum, return exactly Transfer.Problem.ErrorSquared(Cached), the pre-sqrt error, including its first not-located failure |
| NodalSweep.ConstantFieldsGiveConstantDifference | libmesh/src/apps/grid2grid.cc:258-270 | with a constant coarse field vc whose shape functions sum to one and a constant fine field vf, every written difference entry is vc - vf |
| NodalSweep.DiffEntries | libmesh/src/apps/grid2grid.cc:258-270 | writing the first c variables of a node keeps the field's length (what it writes is DiffEntriesWrites) |
| NodalSweep.DiffEntriesWrites | libmesh/src/apps/grid2grid.cc:258-270 | after writing the first c variables of gn, each of them holds coarse minus fine. Every other (node, variable) pair keeps its value |
| NodalSweep.WriteAllDiffs | libmesh/src/apps/grid2grid.cc:258-270 | writing all variables of gn from a containing coarse element leaves gn diffed from that element and every other node untouched |
| NodalSweep.NodeStep | libmesh/src/apps/grid2grid.cc:232-271 | one local node: an already-handled node leaves the state alone. Any other node is located through the remembered element and appended once, with all its entries written. The remembered element stays a coarse element |
| NodalSweep.ElementNodes | libmesh/src/apps/grid2grid.cc:230-272 | after any prefix of an element's local nodes, the remembered element is a coarse element and the field keeps its length |
| NodalSweep.MeshNodes | libmesh/src/apps/grid2grid.cc:227-272 | starting from coarse element 0 and nothing handled, after any prefix of the fine elements the remembered element is a coarse element and the field keeps its length |
| NodalSweep.ElementNodesNext | libmesh/src/apps/grid2grid.cc:230-272 | extending a successful prefix of an element by one local node is exactly one NodeStep |
| NodalSweep.MeshNodesNext | libmesh/src/apps/grid2grid.cc:229-272 | extending a successful prefix of the mesh by one fine element is exactly that element's ElementNodes |
| NodalSweep.ElementNodesFailurePersists | libmesh/src/apps/grid2grid.cc:247 | once a node is not located, every longer prefix of the element fails with the same error |
| NodalSweep.MeshNodesFailurePersists | libmesh/src/apps/grid2grid.cc:247 | once an element fails, every longer prefix of the mesh fails with the same error |
| NodalSweep.NodeStepKeeps | libmesh/src/apps/grid2grid.cc:234-270 | a step keeps the sweep consistent and adds exactly gn to the handled nodes. Consistent means: each handled node is listed once; each handled node is diffed from a containing element; every other node keeps its starting entries |
| NodalSweep.ElementNodesKeeps | libmesh/src/apps/grid2grid.cc:230-272 | an element's prefix keeps the sweep consistent and handles exactly the nodes handled before plus that prefix's nodes |
| NodalSweep.MeshNodesKeeps | libmesh/src/apps/grid2grid.cc:229-272 | a mesh prefix keeps the sweep consistent and handles exactly the nodes the prefix's elements reference |
| NodalSweep.ElementNodesFailure | libmesh/src/apps/grid2grid.cc:245-247 | a failed element prefix names one of its nodes whose point the tree cannot find |
| NodalSweep.MeshNodesFailure | libmesh/src/apps/grid2grid.cc:245-247 | a failed mesh prefix names a referenced node whose point the tree cannot find |
| NodalSweep.NodalPassHandlesReferencedOnce | libmesh/src/apps/grid2grid.cc:220-274 | on success, the handled nodes are exactly the referenced ones, each listed once. Each is diffed from a coarse element that contains its point, and every unreferenced node keeps its starting entries. A failure names a referenced node the tree cannot find |
| NodalSweep.NodalPassIgnoresCache | libmesh/src/apps/grid2grid.cc:240-254 | where every referenced node's point lies in exactly one coarse element, which the tree returns, a successful pass diffs each referenced node from the element the tree search alone gives, so the remembered element changes nothing |
| Grid2Grid.WriteNodeDiff | libmesh/src/apps/grid2grid.cc:258-270 | the array afterwards is DiffEntries of the array before, for all variables: each of gn's entries is the coarse value at the node's point minus the fine nodal value, and no other node's entries change |
| Grid2Grid.HandleNode | libmesh/src/apps/grid2grid.cc:232-271 | the body for one local node computes exactly one NodeStep from the current state. This covers the skip of a marked node, the marking, the lookup through the remembered element, the write, and a failure. Marks stay exactly on the handled nodes |
| Grid2Grid.NodalDifference | libmesh/src/apps/grid2grid.cc:220-274 | the loops, seeded with coarse element 0, succeed exactly when NodalPass does and fail with its error. On success the array is NodalPass's field, and a node is marked exactly when NodalPass handled it, which is exactly when some fine element references it |
| Grid2Grid.Run | libmesh/src/apps/grid2grid.cc:20-284 | fewer than 6 arguments is a usage error, and otherwise differing variable-name lists are fatal. On success the error is ErrorSquared(Cached), the difference field is NodalPass's from a zero field, as long as the fine field, and carries the fine names, every referenced node has its difference written, and every unreferenced node keeps 0. Once both checks pass and the error sweep succeeds, Run succeeds exactly when NodalPass from a zero field does, and fails with NodalPass's error otherwise; in particular it succeeds whenever the tree finds every referenced fine node. A failure is only one of four things: the usage error, the names error, the error sweep's own not-located failure, or a not-located referenced fine node |

## Left out

- The octree itself is not part of this model: its construction, its bins and the internals of `find_element`. Its search is a given function, assumed only to return coarse elements that contain the point.
- `Elem::contains_point`, including `InfHex8::contains_point` with its envelope test, `FE::inverse_map` and `FE::shape` are given functions. The Gauss points, phi and JxW of the fine element's quadrature rule are given functions too.
- Reading the meshes and the solution files, writing the Tecplot plot, the perf log and console output are I/O and are left out. The readers' output is the precondition `ReaderOutput`.
- Grid2Grid.GaussPointError: returns the sum before `sqrt` (line 214). The square root is floating-point, and `ErrorIsNonNegative` shows its argument is non-negative.
- `Number` is an exact real: floating-point rounding and complex-valued builds are not modelled.
- FieldLayout.FieldIndex: the index `gn*nv + c` is computed in `unsigned int` in the program. Its wrap-around for very large meshes is not modelled.
- InfHex8.Connectivity: the `dof_id_type` wrap-around of `node_id + 1` at the largest id is not modelled.
- `atoi(argv[1])` is taken as the selected variable and required to be below the variable count. The program does not check it.
- The meshes are assumed homogeneous: every interpolation sum runs over the nodes of the element interpolated on, as though `n_shape_functions` always equalled that element's node count. The fine side asserts this at line 159. The coarse side (lines 195 and 263) checks nothing. After the reseed at line 227, `fe_coarse` still carries its last reinit from the Gauss pass until a lookup misses. The model does not capture a shape-function count that differs from the element's node count.
- The variable-name comparison (line 81) and the not-found checks (lines 180 and 247) are `assert`s, which a release build drops. They are modelled as fatal, following their intent.
- InfHex8.BuildSidePtr: the proxy wrappers `Side<>` and `SideEdge<>` are recorded only as element kind plus index. Their node access through the parent is not modelled.
- The InfHex8 embedding matrix and refinement (the `LIBMESH_ENABLE_AMR` part) are outside the modelled core.
- The other files of the repository (other element types, the remaining apps, solvers) are not part of this model.
