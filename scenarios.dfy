/** The integer graph fixture of graphStructure/test/GraphTest.java,
    replayed as verified methods over the modelled operations. */
module GraphScenarios {
  import opened Outcomes
  import opened Edges
  import opened Graphs

  /** A new graph given the nodes 1, 2 and 3. */
  method ThreeNodes() returns (g: Graph<int, int>)
    ensures fresh(g) && g.Valid()
    ensures g.nodeMap == map[1 := {}, 2 := {}, 3 := {}]
  {
    g := new Graph<int, int>();
    var _ := g.AddNode(1);
    var _ := g.AddNode(2);
    var _ := g.AddNode(3);
  }

  /** The fixture: nodes 1, 2 and 3, with edges 1→2 labelled 2, 2→3
      labelled 6 and 3→2 labelled 6. */
  method Fixture() returns (g: Graph<int, int>)
    ensures fresh(g) && g.Valid()
    ensures g.nodeMap == map[1 := {Edge(2, 1, 2)}, 2 := {Edge(6, 2, 3)}, 3 := {Edge(6, 3, 2)}]
  {
    g := ThreeNodes();
    var _ := g.AddEdge(2, 1, 2);
    assert g.nodeMap[1] == {Edge(2, 1, 2)};
    var _ := g.AddEdge(6, 2, 3);
    assert g.nodeMap[2] == {Edge(6, 2, 3)};
    var _ := g.AddEdge(6, 3, 2);
    assert g.nodeMap[3] == {Edge(6, 3, 2)};
  }

  /** Three nodes; adding an edge that is already there reports false. */
  method AddExistingEdge() returns (size: nat, addedTwice: bool)
    ensures size == 3
    ensures !addedTwice
  {
    var g := Fixture();
    size := g.Size();
    var again := g.AddEdge(6, 2, 3);
    addedTwice := again.value;
  }

  /** A second 2→3 edge with another label gives two edges between them. */
  method ParallelEdges() returns (between: nat)
    ensures between == 2
  {
    var g := Fixture();
    var _ := g.AddEdge(7, 2, 3);
    assert g.nodeMap[2] == {Edge(6, 2, 3), Edge(7, 2, 3)};
    var edges := g.GetDirectedEdgesBetween(2, 3);
    assert edges.value == {Edge(6, 2, 3), Edge(7, 2, 3)};
    between := |edges.value|;
  }

  /** A new edge 3→1 makes 3 adjacent to 1, and a self-loop makes 1
      adjacent to itself. */
  method NewEdgesAreAdjacent() returns (threeToOne: bool, selfLoop: bool)
    ensures threeToOne && selfLoop
  {
    var g := Fixture();
    var _ := g.AddEdge(3, 3, 1);
    var r := g.IsAdjacent(3, 1);
    assert Edge(3, 3, 1) in g.nodeMap[3];
    threeToOne := r.value;
    var _ := g.AddEdge(0, 1, 1);
    r := g.IsAdjacent(1, 1);
    assert Edge(0, 1, 1) in g.nodeMap[1];
    selfLoop := r.value;
  }

  /** Removing 1 leaves two nodes and takes its edge 1→2 with it; removing
      it again reports false; 3 keeps its child 2. */
  method RemoveOne() returns (removedAgain: bool, size: nat, children: set<int>)
    ensures !removedAgain
    ensures size == 2
    ensures children == {2}
  {
    var g := Fixture();
    var _ := g.RemoveNode(1);
    assert g.nodeMap.Keys == {2, 3};
    removedAgain := g.RemoveNode(1);
    size := g.Size();
    var r := g.GetChildren(3);
    assert Edge(6, 3, 2) in g.nodeMap[3];
    children := r.value;
  }
}
