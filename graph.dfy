/** The mutable directed labelled multigraph (graphStructure/Graph.java).
    The functions over `NodeMap` state what each operation does to the
    node-to-outgoing-edges map; the class `Graph` holds that map in a field
    and its methods are proved to update it accordingly. */
module Graphs {
  import opened Outcomes
  import opened Edges

  /** Each node mapped to the set of its outgoing edges. */
  type NodeMap<T(==,!new), E(==,!new)> = map<T, set<Edge<T, E>>>

  /** Representation invariant: an edge is stored under its start node, and
      its end node is itself a node of the graph (no dangling edges). */
  ghost predicate RepInv<T(!new), E(!new)>(m: NodeMap<T, E>): (r: bool)
    ensures m == map[] ==> r
    ensures r ==> forall t, e :: t in m && e in m[t] ==> e.start in m && e.end in m
  {
    forall t, e :: t in m && e in m[t] ==> e.start == t && e.end in m
  }

  /** The edges of `edges` that do not end at `n`. */
  function EdgesNotTo<T(==,!new), E(==,!new)>(edges: set<Edge<T, E>>, n: T): set<Edge<T, E>>
  {
    set e | e in edges && e.end != n
  }

  /** `addNode`: a new node starts with no edges; a present node is left as it is. */
  function WithNode<T(==,!new), E(==,!new)>(m: NodeMap<T, E>, n: T): (r: NodeMap<T, E>)
    ensures r.Keys == m.Keys + {n}
    ensures forall t :: t in m ==> r[t] == m[t]
    ensures n !in m ==> r[n] == {} && |r| == |m| + 1
    ensures n in m ==> r == m
    ensures RepInv(m) ==> RepInv(r)
  {
    if n in m then m else m[n := {}]
  }

  /** `removeNode`: the node goes, and so does every edge ending at it. */
  function WithoutNode<T(==,!new), E(==,!new)>(m: NodeMap<T, E>, n: T): (r: NodeMap<T, E>)
    ensures r.Keys == m.Keys - {n}
    ensures forall t, e :: t in r ==> (e in r[t] <==> e in m[t] && e.end != n)
    ensures RepInv(m) ==> RepInv(r)
    ensures RepInv(m) && n !in m ==> r == m
  {
    var r := map t | t in m && t != n :: EdgesNotTo(m[t], n);
    assert RepInv(m) && n !in m ==> forall t | t in m :: r[t] == m[t];
    r
  }

  /** `addEdge`: the edge joins its start node's set. */
  function WithEdge<T(==,!new), E(==,!new)>(m: NodeMap<T, E>, e: Edge<T, E>): (r: NodeMap<T, E>)
    requires e.start in m
    ensures r.Keys == m.Keys
    ensures r[e.start] == m[e.start] + {e}
    ensures forall t :: t in m && t != e.start ==> r[t] == m[t]
    ensures RepInv(m) && e.end in m ==> RepInv(r)
  {
    m[e.start := m[e.start] + {e}]
  }

  /** `removeEdge`: the edge leaves its start node's set. */
  function WithoutEdge<T(==,!new), E(==,!new)>(m: NodeMap<T, E>, e: Edge<T, E>): (r: NodeMap<T, E>)
    requires e.start in m
    ensures r.Keys == m.Keys
    ensures r[e.start] == m[e.start] - {e}
    ensures forall t :: t in m && t != e.start ==> r[t] == m[t]
    ensures RepInv(m) ==> RepInv(r)
  {
    m[e.start := m[e.start] - {e}]
  }

  /** Some outgoing edge of `s`, with any label, ends at `t`. */
  ghost predicate Adjacent<T(!new), E(!new)>(m: NodeMap<T, E>, s: T, t: T)
    requires s in m
  {
    exists e :: e in m[s] && e.end == t
  }

  /** The distinct end nodes of the edges of `n`. */
  function Children<T(==,!new), E(==,!new)>(m: NodeMap<T, E>, n: T): set<T>
    requires n in m
  {
    set e | e in m[n] :: e.end
  }

  /** All edges from `s` to `t`, parallel edges included. */
  function EdgesBetween<T(==,!new), E(==,!new)>(m: NodeMap<T, E>, s: T, t: T): set<Edge<T, E>>
    requires s in m
  {
    set e | e in m[s] && e.end == t
  }

  /** The three adjacency queries agree: `t` is a child of `s` iff `s` is
      adjacent to `t` iff some edge runs from `s` to `t`. */
  lemma AdjacencyQueriesAgree<T(!new), E(!new)>(m: NodeMap<T, E>, s: T, t: T)
    requires s in m
    ensures t in Children(m, s) <==> Adjacent(m, s, t)
    ensures Adjacent(m, s, t) <==> EdgesBetween(m, s, t) != {}
  {
    if t in Children(m, s) {
      var e :| e in m[s] && e.end == t;
      assert e in EdgesBetween(m, s, t);
    }
    if Adjacent(m, s, t) {
      var e :| e in m[s] && e.end == t;
      assert e.end in Children(m, s);
    }
  }

  /** Two parallel edges with distinct labels are both between their nodes. */
  lemma ParallelEdgesAreDistinct<T(!new), E(!new)>(m: NodeMap<T, E>, s: T, t: T, l1: E, l2: E)
    requires s in m && Edge(l1, s, t) in m[s] && Edge(l2, s, t) in m[s] && l1 != l2
    ensures |EdgesBetween(m, s, t)| >= 2
  {
    var pair := {Edge(l1, s, t), Edge(l2, s, t)};
    assert pair <= EdgesBetween(m, s, t);
    SubsetCardinality(pair, EdgesBetween(m, s, t));
  }

  lemma {:induction false} SubsetCardinality<X>(a: set<X>, b: set<X>)
    requires a <= b
    ensures |a| <= |b|
    decreases a
  {
    if a != {} {
      var x :| x in a;
      SubsetCardinality(a - {x}, b - {x});
    }
  }

  /** Adding an edge makes its end a neighbour of its start; self-loops count. */
  lemma AddedEdgeIsAdjacent<T(!new), E(!new)>(m: NodeMap<T, E>, e: Edge<T, E>)
    requires e.start in m
    ensures Adjacent(WithEdge(m, e), e.start, e.end)
  {
    assert e in WithEdge(m, e)[e.start];
  }

  /** Adding an edge that is already there changes nothing. */
  lemma AddEdgeIdempotent<T(!new), E(!new)>(m: NodeMap<T, E>, e: Edge<T, E>)
    requires e.start in m
    ensures WithEdge(WithEdge(m, e), e) == WithEdge(m, e)
  {
    assert WithEdge(m, e)[e.start] + {e} == WithEdge(m, e)[e.start];
  }

  /** Removing a freshly added edge restores the graph. */
  lemma AddThenRemoveEdge<T(!new), E(!new)>(m: NodeMap<T, E>, e: Edge<T, E>)
    requires e.start in m && e !in m[e.start]
    ensures WithoutEdge(WithEdge(m, e), e) == m
  {
    assert WithoutEdge(WithEdge(m, e), e)[e.start] == m[e.start];
  }

  /** Removing an edge leaves none of that triple, whatever else is kept. */
  lemma RemovedEdgeIsGone<T(!new), E(!new)>(m: NodeMap<T, E>, e: Edge<T, E>)
    requires e.start in m
    ensures e !in WithoutEdge(m, e)[e.start]
    ensures !Adjacent(WithoutEdge(m, e), e.start, e.end) <==>
              EdgesBetween(m, e.start, e.end) <= {e}
  {
    var r := WithoutEdge(m, e);
    if Adjacent(r, e.start, e.end) {
      var x: Edge<T, E> :| x in r[e.start] && x.end == e.end;
      assert x in EdgesBetween(m, e.start, e.end) && x != e;
    }
    if !(EdgesBetween(m, e.start, e.end) <= {e}) {
      var x: Edge<T, E> :| x in EdgesBetween(m, e.start, e.end) && x != e;
      assert x in r[e.start];
    }
  }

  /** Adds every edge of `es` in turn with `addEdge`, in any order. */
  ghost function AddAll<T(!new), E(!new)>(m: NodeMap<T, E>, es: set<Edge<T, E>>): (r: NodeMap<T, E>)
    requires forall e :: e in es ==> e.start in m
    ensures r.Keys == m.Keys
    ensures forall t :: t in m ==> r[t] == m[t] + set e | e in es && e.start == t
    decreases es
  {
    if es == {} then m
    else
      var e :| e in es;
      var r := AddAll(WithEdge(m, e), es - {e});
      assert forall t :: t in m ==> r[t] == m[t] + set x | x in es && x.start == t by {
        forall t | t in m
          ensures r[t] == m[t] + set x | x in es && x.start == t
        {
          var before := set x | x in es - {e} && x.start == t;
          assert (set x | x in es && x.start == t) == before + (if e.start == t then {e} else {});
        }
      }
      r
  }

  /** Rebuilding a graph from its nodes (`getNodes`) and every node's edges
      (`getEdges`) by `addNode` and `addEdge` gives the same graph back. */
  lemma Rebuild<T(!new), E(!new)>(m: NodeMap<T, E>)
    requires RepInv(m)
    ensures AddAll(map t | t in m :: {}, set t, e | t in m && e in m[t] :: e) == m
  {
    var nodes: NodeMap<T, E> := map t | t in m :: {};
    var all := set t, e | t in m && e in m[t] :: e;
    var r := AddAll(nodes, all);
    forall t | t in m
      ensures r[t] == m[t]
    {
      assert (set e | e in all && e.start == t) == m[t];
    }
  }

  /** Keeps the edges of a set that do not end at `n`, one edge at a time. */
  method DropEdgesTo<T(==,!new), E(==,!new)>(edges: set<Edge<T, E>>, n: T) returns (kept: set<Edge<T, E>>)
    ensures kept <= edges
    ensures forall e :: e in kept <==> e in edges && e.end != n
  {
    kept := edges;
    var rest := edges;
    while rest != {}
      invariant rest <= edges && kept <= edges
      invariant forall e :: e in edges - rest ==> (e in kept <==> e.end != n)
      invariant forall e :: e in rest ==> e in kept
      decreases rest
    {
      var e :| e in rest;
      rest := rest - {e};
      if e.end == n {
        kept := kept - {e};
      }
    }
  }

  class Graph<T(==,!new), E(==,!new)> {
    var nodeMap: NodeMap<T, E>

    ghost predicate Valid(): (r: bool)
      reads this
      ensures r ==> forall t, e :: t in nodeMap && e in nodeMap[t] ==> e.end in nodeMap
    {
      RepInv(nodeMap)
    }

    /** A new graph has no nodes. */
    constructor ()
      ensures Valid() && nodeMap == map[]
    {
      nodeMap := map[];
    }

    /** `getNodes`: a copy of the node set. */
    function GetNodes(): (r: set<T>)
      reads this
      ensures forall n :: n in r <==> n in nodeMap
    {
      nodeMap.Keys
    }

    /** `containsNode`: membership in the node set. */
    function ContainsNode(n: T): (r: bool)
      reads this
      ensures r <==> n in GetNodes()
    {
      n in nodeMap
    }

    /** `size`: the number of nodes. */
    function Size(): (r: nat)
      reads this
      ensures r == |GetNodes()|
    {
      |nodeMap|
    }

    /** `isEmpty`: no nodes at all. */
    function IsEmpty(): (r: bool)
      reads this
      ensures r <==> Size() == 0
    {
      nodeMap == map[]
    }

    /** `getEdges`: a copy of the outgoing edges of `n`; the source
        dereferences a missing entry, which throws NullPointerException. */
    function GetEdges(n: T): (r: Result<set<Edge<T, E>>>)
      requires Valid()
      reads this
      ensures r.Ok? <==> ContainsNode(n)
      ensures !r.Ok? ==> r == Err(NullPointer)
      ensures r.Ok? ==> r.value == nodeMap[n]
      ensures r.Ok? ==> forall e :: e in r.value ==> e.start == n && ContainsNode(e.end)
    {
      if n in nodeMap then Ok(nodeMap[n]) else Err(NullPointer)
    }

    /** `addNode`: true iff `n` was absent; existing edge sets are untouched. */
    method AddNode(n: T) returns (added: bool)
      requires Valid()
      modifies this
      ensures Valid()
      ensures added <==> n !in old(nodeMap)
      ensures nodeMap == WithNode(old(nodeMap), n)
      ensures ContainsNode(n)
      ensures Size() == old(Size()) + (if added then 1 else 0)
    {
      added := false;
      if n !in nodeMap {
        nodeMap := nodeMap[n := {}];
        added := true;
      }
    }

    /** `removeNode`: an absent node leaves the graph as it is; a present one
        is removed with every edge that ends at it. */
    method RemoveNode(n: T) returns (removed: bool)
      requires Valid()
      modifies this
      ensures Valid()
      ensures removed <==> n in old(nodeMap)
      ensures nodeMap == WithoutNode(old(nodeMap), n)
      ensures !removed ==> nodeMap == old(nodeMap)
      ensures !ContainsNode(n)
      ensures forall t, e :: t in nodeMap && e in nodeMap[t] ==> e.end != n
    {
      if n !in nodeMap {
        return false;
      }
      var pending := nodeMap.Keys;
      while pending != {}
        invariant pending <= nodeMap.Keys
        invariant nodeMap.Keys == old(nodeMap).Keys
        invariant forall t :: t in nodeMap ==>
                    nodeMap[t] == if t in pending then old(nodeMap)[t] else EdgesNotTo(old(nodeMap)[t], n)
        decreases pending
      {
        var t :| t in pending;
        pending := pending - {t};
        var kept := DropEdgesTo(nodeMap[t], n);
        nodeMap := nodeMap[t := kept];
      }
      nodeMap := nodeMap - {n};
      assert nodeMap == WithoutNode(old(nodeMap), n);
      return true;
    }

    /** `addEdge`: both ends must be nodes, else IllegalArgumentException;
        returns whether the triple was new. */
    method AddEdge(lbl: E, start: T, end: T) returns (r: Result<bool>)
      requires Valid()
      modifies this
      ensures Valid()
      ensures !(start in old(nodeMap) && end in old(nodeMap)) ==>
                r == Err(IllegalArgument) && nodeMap == old(nodeMap)
      ensures start in old(nodeMap) && end in old(nodeMap) ==>
                r == Ok(Edge(lbl, start, end) !in old(nodeMap)[start]) &&
                nodeMap == WithEdge(old(nodeMap), Edge(lbl, start, end))
    {
      if !(ContainsNode(start) && ContainsNode(end)) {
        return Err(IllegalArgument);
      }
      var e := Edge(lbl, start, end);
      r := Ok(e !in nodeMap[start]);
      nodeMap := nodeMap[start := nodeMap[start] + {e}];
    }

    /** `removeEdge`: both ends must be nodes, else IllegalArgumentException;
        returns whether the triple was there. */
    method RemoveEdge(lbl: E, start: T, end: T) returns (r: Result<bool>)
      requires Valid()
      modifies this
      ensures Valid()
      ensures !(start in old(nodeMap) && end in old(nodeMap)) ==>
                r == Err(IllegalArgument) && nodeMap == old(nodeMap)
      ensures start in old(nodeMap) && end in old(nodeMap) ==>
                r == Ok(Edge(lbl, start, end) in old(nodeMap)[start]) &&
                nodeMap == WithoutEdge(old(nodeMap), Edge(lbl, start, end))
    {
      if !(ContainsNode(start) && ContainsNode(end)) {
        return Err(IllegalArgument);
      }
      var e := Edge(lbl, start, end);
      r := Ok(e in nodeMap[start]);
      nodeMap := nodeMap[start := nodeMap[start] - {e}];
    }

    /** `isAdjacent`: both must be nodes; true iff an edge of `start` ends at `end`. */
    method IsAdjacent(start: T, end: T) returns (r: Result<bool>)
      requires Valid()
      ensures !(start in nodeMap && end in nodeMap) ==> r == Err(IllegalArgument)
      ensures start in nodeMap && end in nodeMap ==> r == Ok(Adjacent(nodeMap, start, end))
    {
      if !(ContainsNode(start) && ContainsNode(end)) {
        return Err(IllegalArgument);
      }
      var result := false;
      var rest := nodeMap[start];
      while rest != {}
        invariant rest <= nodeMap[start]
        invariant result <==> exists e :: e in nodeMap[start] && e !in rest && e.end == end
        decreases rest
      {
        var e :| e in rest;
        rest := rest - {e};
        if e.end == end {
          result := true;
        }
      }
      return Ok(result);
    }

    /** `getChildren`: `n` must be a node; the distinct ends of its edges. */
    method GetChildren(n: T) returns (r: Result<set<T>>)
      requires Valid()
      ensures n !in nodeMap ==> r == Err(IllegalArgument)
      ensures n in nodeMap ==> r.Ok? && forall c :: c in r.value <==> exists e :: e in nodeMap[n] && e.end == c
    {
      if !ContainsNode(n) {
        return Err(IllegalArgument);
      }
      var result := {};
      var rest := nodeMap[n];
      while rest != {}
        invariant rest <= nodeMap[n]
        invariant forall c :: c in result <==> exists e :: e in nodeMap[n] && e !in rest && e.end == c
        decreases rest
      {
        var e :| e in rest;
        rest := rest - {e};
        result := result + {e.end};
      }
      return Ok(result);
    }

    /** `getDirectedEdgesBetween`: both must be nodes; exactly the edges of
        `start` that end at `end`. */
    method GetDirectedEdgesBetween(start: T, end: T) returns (r: Result<set<Edge<T, E>>>)
      requires Valid()
      ensures !(start in nodeMap && end in nodeMap) ==> r == Err(IllegalArgument)
      ensures start in nodeMap && end in nodeMap ==>
                r.Ok? && forall e :: e in r.value <==> e in nodeMap[start] && e.end == end
    {
      if !(ContainsNode(start) && ContainsNode(end)) {
        return Err(IllegalArgument);
      }
      var result := {};
      var rest := nodeMap[start];
      while rest != {}
        invariant rest <= nodeMap[start]
        invariant forall e :: e in result <==> e in nodeMap[start] && e !in rest && e.end == end
        decreases rest
      {
        var e :| e in rest;
        rest := rest - {e};
        if e.end == end {
          result := result + {e};
        }
      }
      return Ok(result);
    }
  }
}
