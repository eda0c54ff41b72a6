/**
 * Lowering of a structured grid to an unstructured Gmsh mesh (one node per
 * grid point, one quadrilateral per grid cell), and the layout of the Gmsh
 * legacy ASCII 2.2 format the mesh is written in.
 */
module Gmsh {
  import opened Plot3D

  /** A mesh node: its id and its coordinates; z is 0.0 for a planar grid. */
  datatype Node = Node(id: nat, x: Coord, y: Coord, z: Coord)

  /** A mesh element: id, element type, number of tags, physical tag, four corner node ids. */
  datatype Element = Element(id: nat, elemType: nat, numTags: nat, physicalTag: nat,
                             n1: nat, n2: nat, n3: nat, n4: nat)

  /** Gmsh's element type code for a 4-node quadrilateral. */
  const QuadType: nat := 3
  const TagCount: nat := 2
  const PhysicalTag: nat := 1

  // ---------------------------------------------------------------------
  // Node numbering
  // ---------------------------------------------------------------------

  /** The id of the node at grid point (i, j): nodes are numbered from 1 in row-major order. */
  function NodeId(jdim: nat, i: nat, j: nat): nat
  {
    i * jdim + j + 1
  }

  lemma MulMonotone(a: nat, b: nat, c: nat)
    requires a <= b
    ensures a * c <= b * c
  {
    assert b * c == a * c + (b - a) * c;
  }

  /** Every grid point's id lies in 1..idim*jdim. */
  lemma NodeIdRange(idim: nat, jdim: nat, i: nat, j: nat)
    requires i < idim && j < jdim
    ensures 1 <= NodeId(jdim, i, j) <= idim * jdim
  {
    MulMonotone(i + 1, idim, jdim);
  }

  /** Distinct grid points have distinct ids. */
  lemma NodeIdInjective(jdim: nat, i: nat, j: nat, i': nat, j': nat)
    requires j < jdim && j' < jdim
    requires NodeId(jdim, i, j) == NodeId(jdim, i', j')
    ensures i == i' && j == j'
  {
    if i < i' {
      MulMonotone(i + 1, i', jdim);
    } else if i' < i {
      MulMonotone(i' + 1, i, jdim);
    }
  }

  // ---------------------------------------------------------------------
  // The nodes of a grid
  // ---------------------------------------------------------------------

  /** The first n nodes of grid row i, whose ids follow first. */
  function RowNodes(g: Grid, first: nat, i: nat, n: nat): (r: seq<Node>)
    requires g.WellFormed() && i < g.idim && n <= g.jdim
    ensures |r| == n
    ensures forall j :: 0 <= j < n ==> r[j] == Node(first + j + 1, g.x[i][j], g.y[i][j], 0.0)
  {
    if n == 0 then []
    else RowNodes(g, first, i, n - 1) + [Node(first + n, g.x[i][n - 1], g.y[i][n - 1], 0.0)]
  }

  /** The nodes of the first m rows of grid g, whose ids follow first. */
  function GridNodes(g: Grid, first: nat, m: nat): (r: seq<Node>)
    requires g.WellFormed() && m <= g.idim
    ensures |r| == m * g.jdim
    ensures forall k :: 0 <= k < |r| ==> r[k].id == first + k + 1 && r[k].z == 0.0
  {
    if m == 0 then []
    else
      var pre := GridNodes(g, first, m - 1);
      assert |pre| + g.jdim == m * g.jdim;
      pre + RowNodes(g, first + (m - 1) * g.jdim, m - 1, g.jdim)
  }

  /** The node at position NodeId(i, j) - 1 of a grid's nodes is grid point (i, j). */
  lemma {:induction false} GridNodesAt(g: Grid, first: nat, m: nat, i: nat, j: nat)
    requires g.WellFormed() && m <= g.idim && i < m && j < g.jdim
    ensures NodeId(g.jdim, i, j) - 1 < |GridNodes(g, first, m)|
    ensures GridNodes(g, first, m)[NodeId(g.jdim, i, j) - 1] ==
            Node(first + NodeId(g.jdim, i, j), g.x[i][j], g.y[i][j], 0.0)
  {
    NodeIdRange(m, g.jdim, i, j);
    var pre := GridNodes(g, first, m - 1);
    if i < m - 1 {
      GridNodesAt(g, first, m - 1, i, j);
      NodeIdRange(m - 1, g.jdim, i, j);
    } else {
      assert |pre| == i * g.jdim;
    }
  }

  // ---------------------------------------------------------------------
  // The quadrilaterals of a grid
  // ---------------------------------------------------------------------

  /** The length of `range(n - 1)`: the number of cells along an axis of n points. */
  function Cells(n: nat): nat
  {
    if n == 0 then 0 else n - 1
  }

  /** The quadrilateral of cell (i, j): its corners are (i, j), (i + 1, j), (i + 1, j + 1), (i, j + 1). */
  function Quad(id: nat, jdim: nat, i: nat, j: nat): Element
  {
    Element(id, QuadType, TagCount, PhysicalTag,
            NodeId(jdim, i, j), NodeId(jdim, i + 1, j), NodeId(jdim, i + 1, j + 1), NodeId(jdim, i, j + 1))
  }

  /** The id of the quadrilateral of cell (i, j): cells are numbered from 1 in row-major order. */
  function QuadId(jdim: nat, i: nat, j: nat): nat
  {
    i * Cells(jdim) + j + 1
  }

  /** The first n quadrilaterals of cell row i, whose ids follow first. */
  function RowQuads(jdim: nat, first: nat, i: nat, n: nat): (r: seq<Element>)
    ensures |r| == n
    ensures forall j :: 0 <= j < n ==> r[j] == Quad(first + j + 1, jdim, i, j)
  {
    if n == 0 then [] else RowQuads(jdim, first, i, n - 1) + [Quad(first + n, jdim, i, n - 1)]
  }

  /** The quadrilaterals of the first m cell rows of a grid with jdim columns, whose ids follow first. */
  function GridQuads(jdim: nat, first: nat, m: nat): (r: seq<Element>)
    ensures |r| == m * Cells(jdim)
    ensures forall k :: 0 <= k < |r| ==>
      r[k].id == first + k + 1 && r[k].elemType == QuadType &&
      r[k].numTags == TagCount && r[k].physicalTag == PhysicalTag
  {
    if m == 0 then []
    else
      var pre := GridQuads(jdim, first, m - 1);
      assert |pre| + Cells(jdim) == m * Cells(jdim);
      pre + RowQuads(jdim, first + (m - 1) * Cells(jdim), m - 1, Cells(jdim))
  }

  /** The quadrilateral at position QuadId(i, j) - 1 is that of cell (i, j). */
  lemma {:induction false} GridQuadsAt(jdim: nat, first: nat, m: nat, i: nat, j: nat)
    requires i < m && j < Cells(jdim)
    ensures QuadId(jdim, i, j) - 1 < |GridQuads(jdim, first, m)|
    ensures GridQuads(jdim, first, m)[QuadId(jdim, i, j) - 1] == Quad(first + QuadId(jdim, i, j), jdim, i, j)
  {
    MulMonotone(i + 1, m, Cells(jdim));
    if i < m - 1 {
      GridQuadsAt(jdim, first, m - 1, i, j);
    } else {
      assert |GridQuads(jdim, first, m - 1)| == i * Cells(jdim);
    }
  }

  /** Four distinct corner ids, each the id of one of count nodes. */
  predicate WellConnected(e: Element, count: nat)
  {
    1 <= e.n1 <= count && 1 <= e.n2 <= count && 1 <= e.n3 <= count && 1 <= e.n4 <= count &&
    e.n1 != e.n2 && e.n1 != e.n3 && e.n1 != e.n4 && e.n2 != e.n3 && e.n2 != e.n4 && e.n3 != e.n4
  }

  /** A cell's quadrilateral has four distinct corners that are grid points. */
  lemma QuadWellConnected(idim: nat, jdim: nat, id: nat, i: nat, j: nat)
    requires i + 1 < idim && j + 1 < jdim
    ensures WellConnected(Quad(id, jdim, i, j), idim * jdim)
  {
    NodeIdRange(idim, jdim, i, j);
    NodeIdRange(idim, jdim, i + 1, j);
    NodeIdRange(idim, jdim, i + 1, j + 1);
    NodeIdRange(idim, jdim, i, j + 1);
    assert NodeId(jdim, i + 1, j) == NodeId(jdim, i, j) + jdim;
    assert NodeId(jdim, i + 1, j + 1) == NodeId(jdim, i, j) + jdim + 1;
  }

  /** Every quadrilateral of an idim-by-jdim grid references four distinct existing nodes. */
  lemma {:induction false} GridQuadsWellConnected(idim: nat, jdim: nat, first: nat, m: nat)
    requires m <= Cells(idim)
    ensures forall k :: 0 <= k < |GridQuads(jdim, first, m)| ==>
      WellConnected(GridQuads(jdim, first, m)[k], idim * jdim)
  {
    if m > 0 {
      GridQuadsWellConnected(idim, jdim, first, m - 1);
      var pre := GridQuads(jdim, first, m - 1);
      var row := RowQuads(jdim, first + (m - 1) * Cells(jdim), m - 1, Cells(jdim));
      forall k | 0 <= k < |row|
        ensures WellConnected(row[k], idim * jdim)
      {
        QuadWellConnected(idim, jdim, first + (m - 1) * Cells(jdim) + k + 1, m - 1, k);
      }
      assert GridQuads(jdim, first, m) == pre + row;
    }
  }

  // ---------------------------------------------------------------------
  // All blocks
  // ---------------------------------------------------------------------

  /** The nodes `consume` appends for the blocks, numbered on from first. */
  function BlockNodes(blocks: seq<Grid>, first: nat): (r: seq<Node>)
    requires AllWellFormed(blocks)
    ensures forall k :: 0 <= k < |r| ==> r[k].id == first + k + 1
    decreases |blocks|
  {
    if blocks == [] then []
    else
      var last := blocks[|blocks| - 1];
      var pre := BlockNodes(blocks[..|blocks| - 1], first);
      pre + GridNodes(last, first + |pre|, last.idim)
  }

  /**
   * The elements `consume` appends for the blocks, numbered on from first.
   * Their corner ids are those of each block's own numbering from 1: they are
   * not shifted past the nodes of earlier blocks.
   */
  function BlockQuads(blocks: seq<Grid>, first: nat): (r: seq<Element>)
    ensures forall k :: 0 <= k < |r| ==> r[k].id == first + k + 1
    decreases |blocks|
  {
    if blocks == [] then []
    else
      var last := blocks[|blocks| - 1];
      var pre := BlockQuads(blocks[..|blocks| - 1], first);
      pre + GridQuads(last.jdim, first + |pre|, Cells(last.idim))
  }

  /** Converting one more block appends that block's nodes to the mesh, numbered on. */
  lemma BlockNodesStep(nodes: seq<Node>, blocks: seq<Grid>, b: nat)
    requires AllWellFormed(blocks) && b < |blocks|
    ensures var before := nodes + BlockNodes(blocks[..b], |nodes|);
      nodes + BlockNodes(blocks[..b + 1], |nodes|) == before + GridNodes(blocks[b], |before|, blocks[b].idim)
  {
    assert blocks[..b + 1][..b] == blocks[..b];
    var pre := BlockNodes(blocks[..b], |nodes|);
    Associative(nodes, pre, GridNodes(blocks[b], |nodes| + |pre|, blocks[b].idim));
  }

  /** Converting one more block appends that block's quadrilaterals to the mesh, numbered on. */
  lemma BlockQuadsStep(elements: seq<Element>, blocks: seq<Grid>, b: nat)
    requires b < |blocks|
    ensures var before := elements + BlockQuads(blocks[..b], |elements|);
      elements + BlockQuads(blocks[..b + 1], |elements|) == before + GridQuads(blocks[b].jdim, |before|, Cells(blocks[b].idim))
  {
    assert blocks[..b + 1][..b] == blocks[..b];
    var pre := BlockQuads(blocks[..b], |elements|);
    Associative(elements, pre, GridQuads(blocks[b].jdim, |elements| + |pre|, Cells(blocks[b].idim)));
  }

  // ---------------------------------------------------------------------
  // The mesh of one grid, as the program builds it
  // ---------------------------------------------------------------------

  /** Converting one block into an empty mesh yields that grid's nodes and quadrilaterals. */
  lemma SingleBlock(g: Grid)
    requires g.WellFormed()
    ensures BlockNodes([g], 0) == GridNodes(g, 0, g.idim)
    ensures BlockQuads([g], 0) == GridQuads(g.jdim, 0, Cells(g.idim))
  {
    assert [g][..0] == [];
  }

  /**
   * The nodes of a single grid, converted into an empty mesh: idim * jdim of
   * them, numbered 1..idim*jdim in order, z = 0.0, and grid point (i, j) at
   * id NodeId(i, j).
   */
  lemma SingleBlockNodes(g: Grid)
    requires g.WellFormed()
    ensures |BlockNodes([g], 0)| == g.idim * g.jdim
    ensures forall k :: 0 <= k < |BlockNodes([g], 0)| ==>
      BlockNodes([g], 0)[k].id == k + 1 && BlockNodes([g], 0)[k].z == 0.0
    ensures forall i, j :: 0 <= i < g.idim && 0 <= j < g.jdim ==> HoldsPoint(g, i, j)
  {
    SingleBlock(g);
    forall i, j | 0 <= i < g.idim && 0 <= j < g.jdim
      ensures HoldsPoint(g, i, j)
    {
      PointNode(g, i, j);
    }
  }

  /**
   * The elements of a single grid, converted into an empty mesh: (idim - 1) *
   * (jdim - 1) of them and none when a dimension is at most 1, ids 1.. in
   * order, all quadrilaterals with 2 tags and physical tag 1, each with four
   * distinct corners among the grid's nodes.
   */
  lemma SingleBlockElements(g: Grid)
    requires g.WellFormed()
    ensures |BlockQuads([g], 0)| == Cells(g.idim) * Cells(g.jdim)
    ensures g.idim <= 1 || g.jdim <= 1 ==> BlockQuads([g], 0) == []
    ensures forall k :: 0 <= k < |BlockQuads([g], 0)| ==>
      var e := BlockQuads([g], 0)[k];
      e.id == k + 1 && e.elemType == QuadType && e.numTags == TagCount && e.physicalTag == PhysicalTag &&
      WellConnected(e, g.idim * g.jdim)
  {
    SingleBlock(g);
    GridQuadsWellConnected(g.idim, g.jdim, 0, Cells(g.idim));
  }

  /**
   * Each element of a single converted grid joins the 2x2 neighbourhood of
   * its cell: the element with id QuadId(i, j) has as corners, in order, the
   * nodes at grid points (i, j), (i + 1, j), (i + 1, j + 1) and (i, j + 1).
   */
  lemma CellNeighbourhood(g: Grid, i: nat, j: nat)
    requires g.WellFormed() && i + 1 < g.idim && j + 1 < g.jdim
    ensures QuadId(g.jdim, i, j) <= |BlockQuads([g], 0)|
    ensures BlockQuads([g], 0)[QuadId(g.jdim, i, j) - 1] == Quad(QuadId(g.jdim, i, j), g.jdim, i, j)
    ensures HoldsPoint(g, i, j) && HoldsPoint(g, i + 1, j) && HoldsPoint(g, i + 1, j + 1) && HoldsPoint(g, i, j + 1)
  {
    CellQuad(g, i, j);
    SingleBlockNodes(g);
  }

  /**
   * The smallest grid with a cell: 4 nodes and one quadrilateral, whose
   * corners (0, 0), (1, 0), (1, 1), (0, 1) have the ids 1, 3, 4, 2.
   */
  lemma TwoByTwo(g: Grid)
    requires g.WellFormed() && g.idim == 2 && g.jdim == 2
    ensures |BlockNodes([g], 0)| == 4
    ensures BlockQuads([g], 0) == [Element(1, 3, 2, 1, 1, 3, 4, 2)]
  {
    SingleBlock(g);
  }

  lemma CellQuad(g: Grid, i: nat, j: nat)
    requires g.WellFormed() && i + 1 < g.idim && j + 1 < g.jdim
    ensures QuadId(g.jdim, i, j) <= |BlockQuads([g], 0)|
    ensures BlockQuads([g], 0)[QuadId(g.jdim, i, j) - 1] == Quad(QuadId(g.jdim, i, j), g.jdim, i, j)
  {
    SingleBlock(g);
    GridQuadsAt(g.jdim, 0, Cells(g.idim), i, j);
  }

  lemma PointNode(g: Grid, i: nat, j: nat)
    requires g.WellFormed() && i < g.idim && j < g.jdim
    ensures HoldsPoint(g, i, j)
  {
    SingleBlock(g);
    GridNodesAt(g, 0, g.idim, i, j);
  }

  /** In the mesh of the single grid g, node NodeId(i, j) exists and carries grid point (i, j). */
  predicate HoldsPoint(g: Grid, i: nat, j: nat)
    requires g.WellFormed() && i < g.idim && j < g.jdim
  {
    var ns := BlockNodes([g], 0);
    NodeId(g.jdim, i, j) <= |ns| &&
    ns[NodeId(g.jdim, i, j) - 1] == Node(NodeId(g.jdim, i, j), g.x[i][j], g.y[i][j], 0.0)
  }

  // ---------------------------------------------------------------------
  // Output: the Gmsh legacy ASCII 2.2 layout
  // ---------------------------------------------------------------------

  /** One space-separated item of an output line. */
  datatype Field = Word(s: string) | Int(n: int) | Num(c: Coord)

  /** An output line, as the sequence of its space-separated items. */
  type OutLine = seq<Field>

  function NodeLine(n: Node): OutLine
  {
    [Int(n.id), Num(n.x), Num(n.y), Num(n.z)]
  }

  function ElementLine(e: Element): OutLine
  {
    [Int(e.id), Int(e.elemType), Int(e.numTags), Int(e.physicalTag), Int(e.n1), Int(e.n2), Int(e.n3), Int(e.n4)]
  }

  function HeaderSection(): seq<OutLine>
  {
    [[Word("$MeshFormat")], [Word("2.2"), Int(0), Int(8)], [Word("$EndMeshFormat")]]
  }

  function NodeLines(ns: seq<Node>): seq<OutLine>
  {
    seq(|ns|, k requires 0 <= k < |ns| => NodeLine(ns[k]))
  }

  function ElementLines(es: seq<Element>): seq<OutLine>
  {
    seq(|es|, k requires 0 <= k < |es| => ElementLine(es[k]))
  }

  /** The node section: its markers, a count line holding the number of nodes, and one line per node. */
  function NodeSection(ns: seq<Node>): (r: seq<OutLine>)
    ensures |r| == |ns| + 3
    ensures r[0] == [Word("$Nodes")] && r[1] == [Int(|ns|)] && r[|ns| + 2] == [Word("$EndNodes")]
    ensures forall k :: 0 <= k < |ns| ==> r[k + 2] == NodeLine(ns[k])
  {
    [[Word("$Nodes")], [Int(|ns|)]] + NodeLines(ns) + [[Word("$EndNodes")]]
  }

  /** The element section: its markers, a count line holding the number of elements, and one line per element. */
  function ElementSection(es: seq<Element>): (r: seq<OutLine>)
    ensures |r| == |es| + 3
    ensures r[0] == [Word("$Elements")] && r[1] == [Int(|es|)] && r[|es| + 2] == [Word("$EndElements")]
    ensures forall k :: 0 <= k < |es| ==> r[k + 2] == ElementLine(es[k])
  {
    [[Word("$Elements")], [Int(|es|)]] + ElementLines(es) + [[Word("$EndElements")]]
  }

  /** The whole file: header, node section, element section. */
  function MeshLines(ns: seq<Node>, es: seq<Element>): seq<OutLine>
  {
    HeaderSection() + NodeSection(ns) + ElementSection(es)
  }

  // ---------------------------------------------------------------------
  // Reading the layout back
  // ---------------------------------------------------------------------

  function DecodeNode(line: OutLine): Option<Node>
  {
    if |line| == 4 && line[0].Int? && line[0].n >= 0 && line[1].Num? && line[2].Num? && line[3].Num?
    then Some(Node(line[0].n, line[1].c, line[2].c, line[3].c))
    else None
  }

  predicate IsNat(f: Field)
  {
    f.Int? && f.n >= 0
  }

  function DecodeElement(line: OutLine): Option<Element>
  {
    if |line| == 8 && forall k :: 0 <= k < 8 ==> IsNat(line[k])
    then Some(Element(line[0].n, line[1].n, line[2].n, line[3].n, line[4].n, line[5].n, line[6].n, line[7].n))
    else None
  }

  function DecodeNodes(lines: seq<OutLine>): Option<seq<Node>>
  {
    if lines == [] then Some([])
    else match (DecodeNode(lines[0]), DecodeNodes(lines[1..]))
      case (Some(n), Some(rest)) => Some([n] + rest)
      case _ => None
  }

  function DecodeElements(lines: seq<OutLine>): Option<seq<Element>>
  {
    if lines == [] then Some([])
    else match (DecodeElement(lines[0]), DecodeElements(lines[1..]))
      case (Some(e), Some(rest)) => Some([e] + rest)
      case _ => None
  }

  /**
   * Splits a section off the front of lines: the start marker, a count line
   * with n, n entry lines and the end marker.  Gives the entry lines and
   * what follows the section.
   */
  function SplitSection(lines: seq<OutLine>, start: string, end: string): Option<(seq<OutLine>, seq<OutLine>)>
  {
    if |lines| >= 2 && lines[0] == [Word(start)] && |lines[1]| == 1 && IsNat(lines[1][0]) &&
       |lines| >= lines[1][0].n + 3 && lines[lines[1][0].n + 2] == [Word(end)]
    then Some((lines[2..lines[1][0].n + 2], lines[lines[1][0].n + 3..]))
    else None
  }

  /** The nodes and elements of a file in the layout, or None when it is not in the layout. */
  function ReadMesh(lines: seq<OutLine>): Option<(seq<Node>, seq<Element>)>
  {
    if |lines| < 3 || lines[..3] != HeaderSection() then None
    else match SplitSection(lines[3..], "$Nodes", "$EndNodes")
      case None => None
      case Some((nodeLines, rest)) =>
        match SplitSection(rest, "$Elements", "$EndElements")
        case None => None
        case Some((elementLines, tail)) =>
          if tail != [] then None
          else match (DecodeNodes(nodeLines), DecodeElements(elementLines))
            case (Some(ns), Some(es)) => Some((ns, es))
            case _ => None
  }

  lemma {:induction false} DecodeNodeLines(ns: seq<Node>)
    ensures DecodeNodes(NodeLines(ns)) == Some(ns)
  {
    if ns != [] {
      assert NodeLines(ns)[1..] == NodeLines(ns[1..]);
      DecodeNodeLines(ns[1..]);
      assert [ns[0]] + ns[1..] == ns;
    }
  }

  lemma {:induction false} DecodeElementLines(es: seq<Element>)
    ensures DecodeElements(ElementLines(es)) == Some(es)
  {
    if es != [] {
      assert ElementLines(es)[1..] == ElementLines(es[1..]);
      DecodeElementLines(es[1..]);
      assert [es[0]] + es[1..] == es;
    }
  }

  /** Reading back what is written gives the nodes and elements that were written. */
  lemma MeshRoundTrip(ns: seq<Node>, es: seq<Element>)
    ensures ReadMesh(MeshLines(ns, es)) == Some((ns, es))
  {
    var lines := MeshLines(ns, es);
    var nodePart := NodeSection(ns) + ElementSection(es);
    assert lines[..3] == HeaderSection();
    assert lines[3..] == nodePart;
    assert nodePart[2..|ns| + 2] == NodeLines(ns);
    assert nodePart[|ns| + 3..] == ElementSection(es);
    assert SplitSection(nodePart, "$Nodes", "$EndNodes") == Some((NodeLines(ns), ElementSection(es)));
    var elementPart := ElementSection(es);
    assert elementPart[2..|es| + 2] == ElementLines(es);
    assert elementPart[|es| + 3..] == [];
    assert SplitSection(elementPart, "$Elements", "$EndElements") == Some((ElementLines(es), []));
    DecodeNodeLines(ns);
    DecodeElementLines(es);
  }

  // ---------------------------------------------------------------------
  // The mesh file object
  // ---------------------------------------------------------------------

  class GmshFile {
    var nodes: seq<Node>
    var elements: seq<Element>

    constructor ()
      ensures nodes == [] && elements == []
    {
      nodes := [];
      elements := [];
    }

    /**
     * `consume`: for each block, appends its nodes in row-major order with
     * ids taken from the current node count, then one quadrilateral per cell
     * with ids taken from the current element count.
     */
    method Consume(p: P3DfmtFile)
      requires p.Valid()
      modifies this
      ensures nodes == old(nodes) + BlockNodes(p.coords, |old(nodes)|)
      ensures elements == old(elements) + BlockQuads(p.coords, |old(elements)|)
    {
      var blocks := p.coords;
      ghost var nodes0, elements0 := nodes, elements;
      for b := 0 to |blocks|
        invariant nodes == nodes0 + BlockNodes(blocks[..b], |nodes0|)
        invariant elements == elements0 + BlockQuads(blocks[..b], |elements0|)
      {
        BlockNodesStep(nodes0, blocks, b);
        BlockQuadsStep(elements0, blocks, b);
        AppendNodes(blocks[b]);
        AppendQuads(blocks[b]);
      }
      assert blocks[..|blocks|] == blocks;
    }

    /** The node loop of `consume` for one block: its points in row-major order, ids from the node count. */
    method AppendNodes(g: Grid)
      requires g.WellFormed()
      modifies this
      ensures nodes == old(nodes) + GridNodes(g, |old(nodes)|, g.idim)
      ensures elements == old(elements)
    {
      ghost var before := nodes;
      for i := 0 to g.idim
        invariant nodes == before + GridNodes(g, |before|, i)
        invariant elements == old(elements)
      {
        ghost var rowStart := nodes;
        ghost var first := |before| + i * g.jdim;
        for j := 0 to g.jdim
          invariant nodes == rowStart + RowNodes(g, first, i, j)
          invariant elements == old(elements)
        {
          var nodeId := |nodes| + 1;
          nodes := nodes + [Node(nodeId, g.x[i][j], g.y[i][j], 0.0)];
          Associative(rowStart, RowNodes(g, first, i, j), [Node(nodeId, g.x[i][j], g.y[i][j], 0.0)]);
        }
        Associative(before, GridNodes(g, |before|, i), RowNodes(g, first, i, g.jdim));
      }
    }

    method AppendQuads(g: Grid)
      modifies this
      ensures elements == old(elements) + GridQuads(g.jdim, |old(elements)|, Cells(g.idim))
      ensures nodes == old(nodes)
    {
      var jdim := g.jdim;
      // `range(idim - 1)` and `range(jdim - 1)`: empty when the dimension is 0 or 1
      var cellRows, cellCols := Cells(g.idim), Cells(jdim);
      ghost var before := elements;
      for i := 0 to cellRows
        invariant elements == before + GridQuads(jdim, |before|, i)
        invariant nodes == old(nodes)
      {
        ghost var rowStart := elements;
        ghost var first := |before| + i * cellCols;
        for j := 0 to cellCols
          invariant elements == rowStart + RowQuads(jdim, first, i, j)
          invariant nodes == old(nodes)
        {
          var elId := |elements| + 1;
          var n1 := NodeId(jdim, i, j);
          var n2 := NodeId(jdim, i + 1, j);
          var n3 := NodeId(jdim, i + 1, j + 1);
          var n4 := NodeId(jdim, i, j + 1);
          var quad := Element(elId, QuadType, TagCount, PhysicalTag, n1, n2, n3, n4);
          assert quad == Quad(first + j + 1, jdim, i, j);
          elements := elements + [quad];
          Associative(rowStart, RowQuads(jdim, first, i, j), [quad]);
        }
        Associative(before, GridQuads(jdim, |before|, i), RowQuads(jdim, first, i, cellCols));
      }
    }

    /** `_write_header`: the format section, version 2.2, ASCII (file type 0), 8-byte reals. */
    method WriteHeader() returns (out: seq<OutLine>)
      ensures out == HeaderSection()
    {
      out := [[Word("$MeshFormat")]];
      out := out + [[Word("2.2"), Int(0), Int(8)]];
      out := out + [[Word("$EndMeshFormat")]];
    }

    /** `_write_nodes`: the node section of the current nodes. */
    method WriteNodes() returns (out: seq<OutLine>)
      ensures out == NodeSection(nodes)
    {
      out := [[Word("$Nodes")], [Int(|nodes|)]];
      for k := 0 to |nodes|
        invariant |out| == k + 2
        invariant out[0] == [Word("$Nodes")] && out[1] == [Int(|nodes|)]
        invariant forall t :: 0 <= t < k ==> out[t + 2] == NodeLine(nodes[t])
      {
        out := out + [NodeLine(nodes[k])];
      }
      out := out + [[Word("$EndNodes")]];
      assert forall t :: 0 <= t < |out| ==> out[t] == NodeSection(nodes)[t];
    }

    /** `_write_elements`: the element section of the current elements. */
    method WriteElements() returns (out: seq<OutLine>)
      ensures out == ElementSection(elements)
    {
      out := [[Word("$Elements")], [Int(|elements|)]];
      for k := 0 to |elements|
        invariant |out| == k + 2
        invariant out[0] == [Word("$Elements")] && out[1] == [Int(|elements|)]
        invariant forall t :: 0 <= t < k ==> out[t + 2] == ElementLine(elements[t])
      {
        out := out + [ElementLine(elements[k])];
      }
      out := out + [[Word("$EndElements")]];
      assert forall t :: 0 <= t < |out| ==> out[t] == ElementSection(elements)[t];
    }

    /** `save`: the header, the node section and the element section, in that order. */
    method Save() returns (out: seq<OutLine>)
      ensures out == MeshLines(nodes, elements)
    {
      var header := WriteHeader();
      var nodeSection := WriteNodes();
      var elementSection := WriteElements();
      out := header + nodeSection + elementSection;
    }
  }
}
