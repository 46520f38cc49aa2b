/** The campus model (model/CampusGraph.java): buildings known by short
    name, their long names and locations, and a graph of walkways between
    locations whose edge labels are distances. Locations are an abstract
    node type `P`; the data files that populate the model are not part of
    it, so a model is built from already-populated maps and graph. */
module Campus {
  import opened Outcomes
  import opened Edges
  import opened Graphs
  import opened WeightedPaths

  // ---------------------------------------------------------------------
  // Java's String.compareTo order, which a TreeMap of strings follows

  /** `a` sorts before `b`: at the first position where they differ the
      character of `a` is smaller, or `a` is a proper prefix of `b`. */
  predicate StrLess(a: string, b: string): (r: bool)
    ensures r ==> a != b
    ensures a < b ==> r
  {
    if a == [] then b != []
    else if b == [] then false
    else if a[0] != b[0] then a[0] < b[0]
    else StrLess(a[1..], b[1..])
  }

  lemma {:induction false} StrLessIrreflexive(a: string)
    ensures !StrLess(a, a)
    decreases |a|
  {
    if a != [] {
      StrLessIrreflexive(a[1..]);
    }
  }

  lemma {:induction false} StrLessTransitive(a: string, b: string, c: string)
    requires StrLess(a, b) && StrLess(b, c)
    ensures StrLess(a, c)
    decreases |a|
  {
    if a != [] && b != [] && c != [] && a[0] == b[0] && b[0] == c[0] {
      StrLessTransitive(a[1..], b[1..], c[1..]);
    }
  }

  /** Any two different strings are ordered one way or the other. */
  lemma {:induction false} StrLessTotal(a: string, b: string)
    requires a != b
    ensures StrLess(a, b) || StrLess(b, a)
    decreases |a|
  {
    if a != [] && b != [] && a[0] == b[0] {
      assert a == [a[0]] + a[1..] && b == [b[0]] + b[1..];
      StrLessTotal(a[1..], b[1..]);
    }
  }

  /** No two strings are each before the other. */
  lemma {:induction false} StrLessAsymmetric(a: string, b: string)
    requires StrLess(a, b)
    ensures !StrLess(b, a)
    decreases |a|
  {
    if a != [] && b != [] && a[0] == b[0] {
      StrLessAsymmetric(a[1..], b[1..]);
    }
  }

  /** Every non-empty finite set of strings has a least element. */
  lemma {:induction false} HasLeast(keys: set<string>)
    requires keys != {}
    ensures exists k :: k in keys && forall j :: j in keys ==> !StrLess(j, k)
    decreases |keys|
  {
    var x :| x in keys;
    var rest := keys - {x};
    if rest == {} {
      assert keys == {x};
      StrLessIrreflexive(x);
      assert forall j :: j in keys ==> !StrLess(j, x);
    } else {
      HasLeast(rest);
      var k :| k in rest && forall j :: j in rest ==> !StrLess(j, k);
      var least := if StrLess(x, k) then x else k;
      forall j | j in keys
        ensures !StrLess(j, least)
      {
        if j == x {
          StrLessIrreflexive(x);
        } else if least == x {
          assert j in rest;
          if StrLess(j, x) {
            StrLessTransitive(j, x, k);
          }
        } else {
          assert j in rest;
        }
      }
      assert least in keys;
    }
  }

  /** The least key of a non-empty key set. */
  function LeastKey(keys: set<string>): (k: string)
    requires keys != {}
    ensures k in keys && forall j :: j in keys ==> !StrLess(j, k)
  {
    HasLeast(keys);
    var k :| k in keys && forall j :: j in keys ==> !StrLess(j, k);
    assert forall k' :: k' in keys && (forall j :: j in keys ==> !StrLess(j, k')) ==> k' == k by {
      forall k' | k' in keys && (forall j :: j in keys ==> !StrLess(j, k'))
        ensures k' == k
      {
        if k' != k {
          StrLessTotal(k, k');
        }
      }
    }
    k
  }

  /** The entries of `m` in key order: what iterating a TreeMap copy of
      `m` yields. */
  function SortedEntries(m: map<string, string>): (r: seq<(string, string)>)
    ensures |r| == |m|
    ensures forall i, j :: 0 <= i < j < |r| ==> StrLess(r[i].0, r[j].0)
    ensures forall k, v :: (k, v) in r <==> k in m && m[k] == v
    decreases |m|
  {
    if m == map[] then []
    else
      var k := LeastKey(m.Keys);
      var rest := m - {k};
      assert |rest| == |m| - 1 by {
        assert rest.Keys == m.Keys - {k};
      }
      var tail := SortedEntries(rest);
      assert forall i :: 0 <= i < |tail| ==> StrLess(k, tail[i].0) by {
        forall i | 0 <= i < |tail|
          ensures StrLess(k, tail[i].0)
        {
          assert tail[i] in tail;
          StrLessTotal(k, tail[i].0);
        }
      }
      [(k, m[k])] + tail
  }

  /** `TreeMap.containsKey` on the sorted copy. */
  predicate HasKey(entries: seq<(string, string)>, key: string): (r: bool)
    ensures r <==> exists v :: (key, v) in entries
  {
    exists i :: 0 <= i < |entries| && entries[i].0 == key
  }

  // ---------------------------------------------------------------------
  // The model

  class CampusGraph<P(==,!new)> {
    /** Short building name to long building name. */
    const short2LongName: map<string, string>
    /** Short building name to location. */
    const name2Loc: map<string, P>
    /** Walkways between locations, labelled with their length. */
    const cGraph: Graph<P, nat>

    ghost predicate Valid()
      reads this, cGraph
    {
      cGraph.Valid()
    }

    /** A model over data already read from the building and path files. */
    constructor (short2LongName: map<string, string>, name2Loc: map<string, P>,
                 cGraph: Graph<P, nat>)
      requires cGraph.Valid()
      ensures this.short2LongName == short2LongName
      ensures this.name2Loc == name2Loc
      ensures this.cGraph == cGraph
      ensures Valid()
    {
      this.short2LongName := short2LongName;
      this.name2Loc := name2Loc;
      this.cGraph := cGraph;
    }

    /** `getLocation`: the building's location, `None` (Java's null) for an
        unknown name. */
    function GetLocation(s: string): (r: Option<P>)
      ensures r.Some? <==> s in name2Loc
      ensures r.Some? ==> r.value == name2Loc[s]
    {
      if s in name2Loc then Some(name2Loc[s]) else None
    }

    /** `getBuildings`: a copy of the short-to-long name map in
        alphabetical order of short names. */
    function GetBuildings(): (r: seq<(string, string)>)
      ensures forall i, j :: 0 <= i < j < |r| ==> StrLess(r[i].0, r[j].0)
      ensures forall k, v :: (k, v) in r <==> k in short2LongName && short2LongName[k] == v
    {
      SortedEntries(short2LongName)
    }

    /** `getLongName`: IllegalArgumentException for a name that is not a
        building; otherwise its long name. */
    function GetLongName(shortName: string): (r: Result<string>)
      ensures r.Ok? <==> shortName in short2LongName
      ensures r.Err? ==> r.failure == IllegalArgument
      ensures r.Ok? ==> r.value == short2LongName[shortName]
    {
      var buildings := GetBuildings();
      assert HasKey(buildings, shortName) <==> shortName in short2LongName by {
        if shortName in short2LongName {
          assert (shortName, short2LongName[shortName]) in buildings;
        }
        if HasKey(buildings, shortName) {
          var i :| 0 <= i < |buildings| && buildings[i].0 == shortName;
          assert buildings[i] in buildings;
        }
      }
      if !HasKey(buildings, shortName) then Err(IllegalArgument)
      else Ok(short2LongName[shortName])
    }

    /** `findPath`: `None` (Java's null) when either name is not a known
        building; otherwise the weighted search between the two buildings'
        locations, which fails when a location is not on the walkway graph. */
    method FindPath(start: string, end: string) returns (r: Result<Option<Path<P>>>)
      requires Valid()
      ensures start !in name2Loc || end !in name2Loc ==> r == Ok(None)
      ensures start in name2Loc && end in name2Loc ==>
        var s, t := name2Loc[start], name2Loc[end];
        (r.Err? <==> !(s in cGraph.nodeMap && t in cGraph.nodeMap)) &&
        (r.Err? ==> r.failure == IllegalArgument) &&
        (r.Ok? ==> (r.value.Some? <==> Reachable(cGraph.nodeMap, s, t))) &&
        (r.Ok? && r.value.Some? ==> IsShortest(cGraph.nodeMap, r.value.value, s, t)) &&
        (r.Ok? && start == end ==> r.value == Some([]))
    {
      var unknown := false;
      if start !in name2Loc {
        unknown := true;
      }
      if end !in name2Loc {
        unknown := true;
      }
      if unknown {
        return Ok(None);
      }
      ghost var expanded;
      r, expanded := FindWeightedPath(cGraph, name2Loc[start], name2Loc[end]);
    }
  }
}
