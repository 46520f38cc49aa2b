/** Least-weight path search over a graph whose edge labels are weights
    (model/CampusGraph.java, `findWeightedPath` and its comparator).
    Candidates are whole paths kept in a priority queue, ranked by total
    weight and then by number of edges; a node is settled the first time a
    path to it leaves the queue. */
module WeightedPaths {
  import opened Outcomes
  import opened Edges
  import opened Graphs

  /** A path as the search builds it: a list of weighted edges. */
  type Path<T> = seq<Edge<T, nat>>

  /** Total weight of a path, summed from the front. */
  function Weight<T>(p: Path<T>): (w: nat)
    ensures w == 0 <==> AllFree(p)
  {
    if p == [] then 0 else Weight(p[..|p| - 1]) + p[|p| - 1].lbl
  }

  /** Every edge of `p` has length 0. */
  predicate AllFree<T>(p: Path<T>)
  {
    forall i :: 0 <= i < |p| ==> p[i].lbl == 0
  }

  /** The comparator's order: `p` ranks no later than `q` when it is lighter,
      or equally heavy with no more edges. */
  predicate NoWorse<T>(p: Path<T>, q: Path<T>): (r: bool)
    ensures r ==> Weight(p) <= Weight(q)
    ensures !r ==> Weight(q) < Weight(p) || (Weight(q) == Weight(p) && |q| < |p|)
  {
    Weight(p) < Weight(q) || (Weight(p) == Weight(q) && |p| <= |q|)
  }

  /** `p` is a chain of graph edges from `s` to `t` (the empty path when `s == t`). */
  ghost predicate IsPath<T(!new)>(m: NodeMap<T, nat>, p: Path<T>, s: T, t: T)
  {
    (forall i :: 0 <= i < |p| ==> p[i].start in m && p[i] in m[p[i].start]) &&
    (forall i :: 0 < i < |p| ==> p[i - 1].end == p[i].start) &&
    (if p == [] then s == t else p[0].start == s && p[|p| - 1].end == t)
  }

  ghost predicate Reachable<T(!new)>(m: NodeMap<T, nat>, s: T, t: T)
  {
    exists p :: IsPath(m, p, s, t)
  }

  /** `p` is a path from `s` to `t` of least weight, and of fewest edges
      among the least-weight ones. */
  ghost predicate IsShortest<T(!new)>(m: NodeMap<T, nat>, p: Path<T>, s: T, t: T)
  {
    IsPath(m, p, s, t) && forall q :: IsPath(m, q, s, t) ==> NoWorse(p, q)
  }

  /** The synthetic zero-weight self-edge every candidate starts with. */
  function Seed<T>(start: T): Edge<T, nat>
  {
    Edge(0, start, start)
  }

  /** The node a candidate path leads to. */
  function Dest<T>(x: Path<T>): T
    requires x != []
  {
    x[|x| - 1].end
  }

  /** A queued candidate: the seed edge, then a path from `start` onwards. */
  ghost predicate IsCandidate<T(!new)>(m: NodeMap<T, nat>, start: T, x: Path<T>)
  {
    x != [] && x[0] == Seed(start) && IsPath(m, x[1..], start, Dest(x))
  }

  /** Every settled node was settled with a shortest path to it. */
  ghost predicate SettledOptimal<T(!new)>(m: NodeMap<T, nat>, start: T, best: map<T, Path<T>>)
  {
    forall u {:trigger IsShortest(m, best[u], start, u)} :: u in best ==> IsShortest(m, best[u], start, u)
  }

  /** Every edge from a settled node to an unsettled one has been offered to
      the queue as an extension of that node's shortest path. */
  ghost predicate FrontierQueued<T(!new)>(m: NodeMap<T, nat>, start: T, queue: seq<Path<T>>,
                                          found: set<T>, best: map<T, Path<T>>)
  {
    forall u, e :: u in best && u in m && e in m[u] && e.end !in found ==>
      [Seed(start)] + best[u] + [e] in queue
  }

  /** What holds of the search before each step: candidates are well
      formed, settled nodes carry shortest paths, the frontier is queued,
      and `end` has not been settled. Before the first step only the seed
      is queued; after it, `start` is settled. */
  ghost predicate SearchInv<T(!new)>(m: NodeMap<T, nat>, start: T, end: T, queue: seq<Path<T>>,
                                     found: set<T>, best: map<T, Path<T>>)
  {
    RepInv(m) && start in m && end in m &&
    found <= m.Keys && end !in found && best.Keys == found &&
    (found == {} ==> queue == [[Seed(start)]]) &&
    (found != {} ==> start in found) &&
    (forall x :: x in queue ==> IsCandidate(m, start, x)) &&
    SettledOptimal(m, start, best) &&
    FrontierQueued(m, start, queue, found, best)
  }

  // ---------------------------------------------------------------------
  // Weights and the comparator's order

  lemma {:induction false} WeightAppend<T>(p: Path<T>, q: Path<T>)
    ensures Weight(p + q) == Weight(p) + Weight(q)
    decreases |q|
  {
    if q == [] {
      assert p + q == p;
    } else {
      assert (p + q)[..|p + q| - 1] == p + q[..|q| - 1];
      WeightAppend(p, q[..|q| - 1]);
    }
  }

  /** The seed adds no weight and one edge. */
  lemma SeedIsFree<T>(start: T, p: Path<T>)
    ensures Weight([Seed(start)] + p) == Weight(p)
    ensures |[Seed(start)] + p| == |p| + 1
  {
    WeightAppend([Seed(start)], p);
    assert [Seed(start)][..0] == [];
  }

  /** Appending the same edge keeps the order between two paths. */
  lemma NoWorseExtend<T>(p: Path<T>, q: Path<T>, e: Edge<T, nat>)
    requires NoWorse(p, q)
    ensures NoWorse(p + [e], q + [e])
  {
    WeightAppend(p, [e]);
    WeightAppend(q, [e]);
    assert [e][..0] == [];
  }

  lemma NoWorseTransitive<T>(p: Path<T>, q: Path<T>, r: Path<T>)
    requires NoWorse(p, q) && NoWorse(q, r)
    ensures NoWorse(p, r)
  {
  }

  /** With weights never negative, a prefix ranks no later than the whole path. */
  lemma PrefixNoWorse<T>(q: Path<T>, k: nat)
    requires k <= |q|
    ensures NoWorse(q[..k], q)
  {
    WeightAppend(q[..k], q[k..]);
    assert q[..k] + q[k..] == q;
  }

  // ---------------------------------------------------------------------
  // Paths

  lemma PathPrefix<T(!new)>(m: NodeMap<T, nat>, q: Path<T>, s: T, t: T, k: nat)
    requires IsPath(m, q, s, t) && k < |q|
    ensures IsPath(m, q[..k], s, q[k].start)
  {
  }

  lemma PathExtend<T(!new)>(m: NodeMap<T, nat>, p: Path<T>, s: T, e: Edge<T, nat>)
    requires IsPath(m, p, s, e.start) && e.start in m && e in m[e.start]
    ensures IsPath(m, p + [e], s, e.end)
  {
  }

  /** Under the representation invariant a path from a node ends at a node. */
  lemma PathEndsInGraph<T(!new)>(m: NodeMap<T, nat>, p: Path<T>, s: T, t: T)
    requires RepInv(m) && s in m && IsPath(m, p, s, t)
    ensures t in m
  {
    if p != [] {
      var e := p[|p| - 1];
      assert e in m[e.start];
    }
  }

  /** A path from inside `S` to outside `S` has a first edge that leaves `S`. */
  lemma {:induction false} Crossing<T(!new)>(m: NodeMap<T, nat>, q: Path<T>, s: T, t: T, S: set<T>)
    returns (k: nat)
    requires IsPath(m, q, s, t) && s in S && t !in S
    ensures k < |q| && q[k].start in S && q[k].end !in S
    ensures IsPath(m, q[..k], s, q[k].start)
  {
    k := 0;
    while q[k].end in S
      invariant k < |q| && q[k].start in S
      decreases |q| - k
    {
      k := k + 1;
    }
    PathPrefix(m, q, s, t, k);
  }

  // ---------------------------------------------------------------------
  // The queue

  /** Removing entry `i` keeps every other entry. */
  lemma RemoveAtKeeps<X>(queue: seq<X>, i: nat, x: X)
    requires i < |queue| && x in queue && x != queue[i]
    ensures x in queue[..i] + queue[i + 1..]
  {
    var j :| 0 <= j < |queue| && queue[j] == x;
    if j < i {
      assert (queue[..i] + queue[i + 1..])[j] == x;
    } else {
      assert (queue[..i] + queue[i + 1..])[j - 1] == x;
    }
  }

  /** The seed in front of two candidates does not change their order. */
  lemma DropSeed<T>(start: T, p: Path<T>, via: Path<T>)
    requires NoWorse([Seed(start)] + p, [Seed(start)] + via)
    ensures NoWorse(p, via)
  {
    SeedIsFree(start, p);
    SeedIsFree(start, via);
  }

  /** Extending `b` by the edge `q[k]` keeps it no worse than `q[..k + 1]`. */
  lemma ExtendToPrefix<T>(b: Path<T>, q: Path<T>, k: nat)
    requires k < |q| && NoWorse(b, q[..k])
    ensures NoWorse(b + [q[k]], q[..k + 1])
  {
    NoWorseExtend(b, q[..k], q[k]);
    assert q[..k] + [q[k]] == q[..k + 1];
  }

  /** The ranking step of the Dijkstra argument: if candidate `[seed] + p`
      ranks no later than `[seed] + b + [q[k]]`, and `b` ranks no later than
      the prefix `q[..k]`, then `p` ranks no later than all of `q`. */
  lemma RankThroughCrossing<T>(start: T, p: Path<T>, b: Path<T>, q: Path<T>, k: nat)
    requires k < |q|
    requires NoWorse([Seed(start)] + p, [Seed(start)] + (b + [q[k]]))
    requires NoWorse(b, q[..k])
    ensures NoWorse(p, q)
  {
    var via := b + [q[k]];
    DropSeed(start, p, via);
    ExtendToPrefix(b, q, k);
    PrefixNoWorse(q, k + 1);
    NoWorseTransitive(p, via, q[..k + 1]);
    NoWorseTransitive(p, q[..k + 1], q);
  }

  /** The core of the Dijkstra argument: a least-ranked candidate leading to
      an unsettled node carries a shortest path to that node. */
  lemma PoppedIsShortest<T(!new)>(m: NodeMap<T, nat>, start: T, queue: seq<Path<T>>,
                                   found: set<T>, best: map<T, Path<T>>, i: nat)
    requires i < |queue|
    requires forall x :: x in queue ==> IsCandidate(m, start, x)
    requires queue[i] != []
    requires forall j :: 0 <= j < |queue| ==> NoWorse(queue[i], queue[j])
    requires best.Keys == found
    requires found == {} ==> queue == [[Seed(start)]]
    requires found != {} ==> start in found
    requires SettledOptimal(m, start, best)
    requires FrontierQueued(m, start, queue, found, best)
    requires Dest(queue[i]) !in found
    ensures IsShortest(m, queue[i][1..], start, Dest(queue[i]))
  {
    var x := queue[i];
    var d := Dest(x);
    var p := x[1..];
    assert IsCandidate(m, start, x);
    assert x == [Seed(start)] + p;
    forall q: Path<T> | IsPath(m, q, start, d)
      ensures NoWorse(p, q)
    {
      if found == {} {
        assert p == [];
      } else {
        var k := Crossing(m, q, start, d, found);
        var u := q[k].start;
        var y := [Seed(start)] + best[u] + [q[k]];
        assert y in queue;
        var j :| 0 <= j < |queue| && queue[j] == y;
        assert IsShortest(m, best[u], start, u);
        assert y == [Seed(start)] + (best[u] + [q[k]]);
        RankThroughCrossing(start, p, best[u], q, k);
      }
    }
  }

  /** While the search state is consistent, a reachable target leaves
      something in the queue. */
  lemma ReachableKeepsQueue<T(!new)>(m: NodeMap<T, nat>, start: T, end: T, queue: seq<Path<T>>,
                                     found: set<T>, best: map<T, Path<T>>)
    requires end !in found
    requires best.Keys == found
    requires found == {} ==> queue == [[Seed(start)]]
    requires found != {} ==> start in found
    requires FrontierQueued(m, start, queue, found, best)
    ensures Reachable(m, start, end) ==> queue != []
  {
    if Reachable(m, start, end) && found != {} {
      var q: Path<T> :| IsPath(m, q, start, end);
      var k := Crossing(m, q, start, end, found);
      assert [Seed(start)] + best[q[k].start] + [q[k]] in queue;
    }
  }

  /** Dropping the popped entry keeps the frontier, once its node counts as settled. */
  lemma FrontierAfterPop<T(!new)>(m: NodeMap<T, nat>, start: T, queue: seq<Path<T>>, i: nat,
                                  found: set<T>, best: map<T, Path<T>>)
    requires i < |queue| && queue[i] != []
    requires FrontierQueued(m, start, queue, found, best)
    ensures FrontierQueued(m, start, queue[..i] + queue[i + 1..], found + {Dest(queue[i])}, best)
  {
    forall u, e | u in best && u in m && e in m[u] && e.end !in found + {Dest(queue[i])}
      ensures [Seed(start)] + best[u] + [e] in queue[..i] + queue[i + 1..]
    {
      var y := [Seed(start)] + best[u] + [e];
      assert Dest(y) == e.end;
      RemoveAtKeeps(queue, i, y);
    }
  }

  /** Settling the popped candidate's node and queueing its extensions keeps
      every queue entry a candidate and keeps the frontier queued. */
  lemma SettleKeepsInvariants<T(!new)>(m: NodeMap<T, nat>, start: T, kept: seq<Path<T>>,
                                       queue: seq<Path<T>>, minPath: Path<T>,
                                       found: set<T>, best: map<T, Path<T>>)
    requires RepInv(m) && IsCandidate(m, start, minPath) && Dest(minPath) in m
    requires forall x :: x in kept ==> IsCandidate(m, start, x)
    requires FrontierQueued(m, start, kept, found + {Dest(minPath)}, best)
    requires |kept| <= |queue| && queue[..|kept|] == kept
    requires forall x :: x in queue[|kept|..] ==>
               exists e :: e in m[Dest(minPath)] && e.end !in found && x == minPath + [e]
    requires forall e :: e in m[Dest(minPath)] && e.end !in found ==> minPath + [e] in queue
    ensures forall x :: x in queue ==> IsCandidate(m, start, x)
    ensures FrontierQueued(m, start, queue, found + {Dest(minPath)},
                           best[Dest(minPath) := minPath[1..]])
  {
    var d := Dest(minPath);
    assert minPath == [Seed(start)] + minPath[1..];
    forall x | x in queue
      ensures IsCandidate(m, start, x)
    {
      var k :| 0 <= k < |queue| && queue[k] == x;
      if k < |kept| {
        assert x == kept[k];
      } else {
        assert x in queue[|kept|..] by {
          assert queue[|kept|..][k - |kept|] == x;
        }
        var e :| e in m[d] && e.end !in found && x == minPath + [e];
        assert minPath + [e] == [Seed(start)] + (minPath[1..] + [e]);
        PathExtend(m, minPath[1..], start, e);
      }
    }
    var best' := best[d := minPath[1..]];
    forall u, e | u in best' && u in m && e in m[u] && e.end !in found + {d}
      ensures [Seed(start)] + best'[u] + [e] in queue
    {
      if u == d {
        assert [Seed(start)] + best'[u] + [e] == minPath + [e];
      } else {
        var y := [Seed(start)] + best[u] + [e];
        assert y in kept;
        var j :| 0 <= j < |kept| && kept[j] == y;
        assert queue[j] == y;
      }
    }
  }

  /** A popped candidate whose node is already settled is dropped. */
  lemma DiscardStep<T(!new)>(m: NodeMap<T, nat>, start: T, end: T, queue: seq<Path<T>>,
                             found: set<T>, best: map<T, Path<T>>, i: nat)
    requires SearchInv(m, start, end, queue, found, best)
    requires i < |queue| && queue[i] != [] && Dest(queue[i]) in found
    ensures SearchInv(m, start, end, queue[..i] + queue[i + 1..], found, best)
  {
    FrontierAfterPop(m, start, queue, i, found, best);
    assert found + {Dest(queue[i])} == found;
    forall x | x in queue[..i] + queue[i + 1..]
      ensures IsCandidate(m, start, x)
    {
      assert x in queue;
    }
  }

  /** A least-ranked candidate whose node is unsettled (and not `end`)
      settles that node with its path, and its extensions are queued. */
  lemma SettleStep<T(!new)>(m: NodeMap<T, nat>, start: T, end: T, popped: seq<Path<T>>,
                            found: set<T>, best: map<T, Path<T>>, i: nat,
                            kept: seq<Path<T>>, edges: set<Edge<T, nat>>, queue: seq<Path<T>>)
    requires SearchInv(m, start, end, popped, found, best)
    requires i < |popped| && popped[i] != []
    requires forall j :: 0 <= j < |popped| ==> NoWorse(popped[i], popped[j])
    requires Dest(popped[i]) !in found && Dest(popped[i]) != end
    requires Dest(popped[i]) in m && edges == m[Dest(popped[i])]
    requires kept == popped[..i] + popped[i + 1..]
    requires |kept| <= |queue| && queue[..|kept|] == kept
    requires forall x :: x in queue[|kept|..] ==>
               exists e :: e in edges && e.end !in found && x == popped[i] + [e]
    requires forall e :: e in edges && e.end !in found ==> popped[i] + [e] in queue
    ensures SearchInv(m, start, end, queue, found + {Dest(popped[i])},
                      best[Dest(popped[i]) := popped[i][1..]])
  {
    var d := Dest(popped[i]);
    PoppedIsShortest(m, start, popped, found, best, i);
    FrontierAfterPop(m, start, popped, i, found, best);
    forall x | x in kept
      ensures IsCandidate(m, start, x)
    {
      assert x in popped;
    }
    assert IsCandidate(m, start, popped[i]);
    SettleKeepsInvariants(m, start, kept, queue, popped[i], found, best);
  }

  // ---------------------------------------------------------------------
  // The search

  /** No entry of `s` occurs twice. */
  ghost predicate Distinct<X>(s: seq<X>)
  {
    forall i, j :: 0 <= i < j < |s| ==> s[i] != s[j]
  }

  /** Settling one more node of `K` leaves fewer unsettled. */
  lemma SettlingShrinks<X>(K: set<X>, found: set<X>, d: X)
    requires d in K && d !in found
    ensures |K - (found + {d})| < |K - found|
  {
    assert K - (found + {d}) == (K - found) - {d};
  }

  lemma DistinctAppend<X>(s: seq<X>, x: X)
    requires Distinct(s) && x !in s
    ensures Distinct(s + [x])
  {
  }

  /** The comparator's weight sum: a loop over the path's edges. */
  method PathWeight<T>(p: Path<T>) returns (w: nat)
    ensures w == Weight(p)
  {
    w := 0;
    for i := 0 to |p|
      invariant w == Weight(p[..i])
    {
      assert p[..i + 1][..i] == p[..i];
      w := w + p[i].lbl;
    }
    assert p[..|p|] == p;
  }

  /** The queue's comparator: by total weight (`Double.compare`), then by
      number of edges (`Integer.compare`); the result is -1, 0 or 1. */
  method Compare<T>(l1: Path<T>, l2: Path<T>) returns (c: int)
    ensures c == -1 || c == 0 || c == 1
    ensures c <= 0 <==> NoWorse(l1, l2)
    ensures c >= 0 <==> NoWorse(l2, l1)
  {
    var weight1 := PathWeight(l1);
    var weight2 := PathWeight(l2);
    c := if weight1 < weight2 then -1 else if weight1 > weight2 then 1 else 0;
    if c == 0 {
      c := if |l1| < |l2| then -1 else if |l1| > |l2| then 1 else 0;
    }
  }

  /** The queue's `remove`: the position of a least-ranked candidate (the
      earliest one among equals). */
  method MinIndex<T>(queue: seq<Path<T>>) returns (i: nat)
    requires queue != []
    ensures i < |queue|
    ensures forall j :: 0 <= j < |queue| ==> NoWorse(queue[i], queue[j])
    ensures forall j :: 0 <= j < i ==> !NoWorse(queue[j], queue[i])
  {
    i := 0;
    for j := 1 to |queue|
      invariant i < j
      invariant forall k :: 0 <= k < j ==> NoWorse(queue[i], queue[k])
      invariant forall k :: 0 <= k < i ==> !NoWorse(queue[k], queue[i])
    {
      var c := Compare(queue[j], queue[i]);
      if c < 0 {
        i := j;
      }
    }
  }

  /** Offers `path + [e]` for every edge `e` whose end is not settled. */
  method Extend<T(==)>(queue: seq<Path<T>>, path: Path<T>, edges: set<Edge<T, nat>>, found: set<T>)
    returns (q: seq<Path<T>>)
    ensures |queue| <= |q| && q[..|queue|] == queue
    ensures forall x :: x in q[|queue|..] ==> exists e :: e in edges && e.end !in found && x == path + [e]
    ensures forall e :: e in edges && e.end !in found ==> path + [e] in q
  {
    q := queue;
    var rest := edges;
    while rest != {}
      invariant rest <= edges
      invariant |queue| <= |q| && q[..|queue|] == queue
      invariant forall x :: x in q[|queue|..] ==> exists e :: e in edges && e.end !in found && x == path + [e]
      invariant forall e :: e in edges && e !in rest && e.end !in found ==> path + [e] in q
      decreases rest
    {
      var e :| e in rest;
      rest := rest - {e};
      if e.end !in found {
        assert (q + [path + [e]])[|queue|..] == q[|queue|..] + [path + [e]];
        q := q + [path + [e]];
      }
    }
  }

  /** The rest of one turn of the search loop once the least-ranked
      candidate leads to a node that is neither settled nor `end`: the
      candidate leaves the queue, each edge out of its node that does not
      lead to a settled node extends it into a new candidate, and the node
      is settled. */
  method SettleMin<T(==,!new)>(graph: Graph<T, nat>, start: T, end: T, queue: seq<Path<T>>,
                               found: set<T>, ghost best: map<T, Path<T>>, i: nat)
    returns (queue': seq<Path<T>>, found': set<T>, ghost best': map<T, Path<T>>)
    requires graph.Valid()
    requires SearchInv(graph.nodeMap, start, end, queue, found, best)
    requires i < |queue| && queue[i] != []
    requires forall j :: 0 <= j < |queue| ==> NoWorse(queue[i], queue[j])
    requires Dest(queue[i]) !in found && Dest(queue[i]) != end
    ensures found' == found + {Dest(queue[i])}
    ensures best' == best[Dest(queue[i]) := queue[i][1..]]
    ensures SearchInv(graph.nodeMap, start, end, queue', found', best')
  {
    ghost var m := graph.nodeMap;
    var minPath := queue[i];
    var minDest := minPath[|minPath| - 1].end;
    assert IsCandidate(m, start, minPath);
    PathEndsInGraph(m, minPath[1..], start, minDest);
    var kept := queue[..i] + queue[i + 1..];
    var edges := graph.GetEdges(minDest).value;
    queue' := Extend(kept, minPath, edges, found);
    SettleStep(m, start, end, queue, found, best, i, kept, edges, queue');
    found' := found + {minDest};
    best' := best[minDest := minPath[1..]];
  }

  /** One turn of the search loop: the least-ranked candidate leaves the
      queue; it is dropped when its node is already settled, it is the
      answer when its node is `end`, and otherwise its node is settled and
      its extensions are queued (`SettleMin`). */
  method Turn<T(==,!new)>(graph: Graph<T, nat>, start: T, end: T, queue: seq<Path<T>>,
                          found: set<T>, ghost best: map<T, Path<T>>)
    returns (arrived: Option<Path<T>>, ghost settled: Option<T>,
             queue': seq<Path<T>>, found': set<T>, ghost best': map<T, Path<T>>)
    requires graph.Valid()
    requires SearchInv(graph.nodeMap, start, end, queue, found, best)
    requires queue != []
    ensures arrived.Some? ==> IsShortest(graph.nodeMap, arrived.value, start, end)
    ensures start == end ==> arrived == Some([])
    ensures arrived.None? ==> SearchInv(graph.nodeMap, start, end, queue', found', best')
    ensures arrived.None? && settled.None? ==> found' == found && |queue'| < |queue|
    ensures settled.Some? ==> settled.value in graph.nodeMap && settled.value !in found &&
                              found' == found + {settled.value}
  {
    ghost var m := graph.nodeMap;
    var i := MinIndex(queue);
    var minPath := queue[i];
    assert IsCandidate(m, start, minPath);
    var minDest := minPath[|minPath| - 1].end;
    if minDest in found {
      DiscardStep(m, start, end, queue, found, best, i);
      return None, None, queue[..i] + queue[i + 1..], found, best;
    } else if minDest == end {
      PoppedIsShortest(m, start, queue, found, best, i);
      assert IsPath(m, [], start, start);
      return Some(minPath[1..]), None, queue, found, best;
    }
    queue', found', best' := SettleMin(graph, start, end, queue, found, best, i);
    return None, Some(minDest), queue', found', best';
  }

  /** `findWeightedPath`: IllegalArgumentException unless both nodes are in
      the graph; otherwise a shortest path (`Some`), or `None` (Java's null)
      exactly when `end` cannot be reached. `expanded` lists the nodes whose
      edges were explored, in order: no node twice, never `end`. */
  method FindWeightedPath<T(==,!new)>(graph: Graph<T, nat>, start: T, end: T)
    returns (r: Result<Option<Path<T>>>, ghost expanded: seq<T>)
    requires graph.Valid()
    ensures r.Err? <==> !(start in graph.nodeMap && end in graph.nodeMap)
    ensures r.Err? ==> r.failure == IllegalArgument
    ensures r.Ok? ==> (r.value.Some? <==> Reachable(graph.nodeMap, start, end))
    ensures r.Ok? && r.value.Some? ==> IsShortest(graph.nodeMap, r.value.value, start, end)
    ensures r.Ok? && start == end ==> r.value == Some([])
    ensures Distinct(expanded)
    ensures forall v :: v in expanded ==> v in graph.nodeMap && v != end
  {
    expanded := [];
    if !graph.ContainsNode(start) || !graph.ContainsNode(end) {
      return Err(IllegalArgument), expanded;
    }
    ghost var m := graph.nodeMap;
    var queue: seq<Path<T>> := [[Seed(start)]];
    var found: set<T> := {};
    ghost var best: map<T, Path<T>> := map[];
    assert IsCandidate(m, start, [Seed(start)]);
    assert SearchInv(m, start, end, queue, found, best);
    while queue != []
      invariant m == graph.nodeMap
      invariant SearchInv(m, start, end, queue, found, best)
      invariant forall v :: v in expanded <==> v in found
      invariant Distinct(expanded)
      decreases |m.Keys - found|, |queue|
    {
      var arrived: Option<Path<T>>;
      ghost var settled: Option<T>;
      ghost var before := found;
      arrived, settled, queue, found, best := Turn(graph, start, end, queue, found, best);
      if arrived.Some? {
        return Ok(arrived), expanded;
      }
      if settled.Some? {
        SettlingShrinks(m.Keys, before, settled.value);
        DistinctAppend(expanded, settled.value);
        expanded := expanded + [settled.value];
      }
    }
    ReachableKeepsQueue(m, start, end, queue, found, best);
    return Ok(None), expanded;
  }
}
