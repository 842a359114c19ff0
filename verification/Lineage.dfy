/**
  Vertex.Lineage and Graph.Lineage (pkg/graph/lineage.go): a search that marks a vertex, explores
  its out-edges and unmarks it again, building a fresh tree of copies.
 */
module Lineage {
  import opened Wrappers
  import opened Templates
  import opened Transforms
  import opened LineageGraph

  /**
    A search, in the order it happens.  Root is a lone copy of graph vertex `at`, with the attributes
    the search is handed; each out-edge `via` then either grows one more branch under the root, by
    the new edge `link`, or is skipped, and leaves other attributes in the search's EventType.
   */
  datatype Tree =
    | Root(at: Vertex, copy: Vertex, given: Attributes)
    | Grow(before: Tree, via: Edge, left: Attributes, link: Edge, child: Tree)
    | Skip(before: Tree, via: Edge, left: Attributes)
  {
    ghost function At(): Vertex { if Root? then at else before.At() }
    ghost function Copy(): Vertex { if Root? then copy else before.Copy() }
    ghost function Given(): Attributes { if Root? then given else before.Given() }
    ghost function Left(): Attributes { if Root? then given else left }
    ghost function Links(): seq<Edge> { if Root? then [] else before.Links() + if Grow? then [link] else [] }

    /** The copies strictly below the root. */
    ghost function Below(): set<Vertex> {
      if Root? then {} else before.Below() + if Grow? then child.Below() + {child.Copy()} else {}
    }
    ghost function Copies(): set<Vertex> { Below() + {Copy()} }
  }

  /** The out-edge lists of a set of vertices. */
  type Adjacency = map<Vertex, seq<Edge>>

  ghost predicate GoodLists(out: Adjacency) {
    (forall v <- out, e <- out[v] :: e.target in out) && (forall v <- out :: Distinct(out[v]))
  }

  // ---------- the trees a search builds ----------

  /** t explores the edges es in order, with `marked` set. */
  ghost predicate Explored(lib: RegexLib, out: Adjacency, es: seq<Edge>, marked: set<Vertex>, t: Tree)
    decreases t, 1
  {
    if es == [] then t.Root?
    else !t.Root? && Explored(lib, out, es[..|es| - 1], marked, t.before) && Turn(lib, out, es[|es| - 1], marked, t)
  }

  /**
    The last turn of t explores e: a marked target becomes a leaf whatever the transform; another is
    searched with what the transform makes of the attributes the earlier turns left, or is skipped
    if a filter refuses those.
   */
  ghost predicate Turn(lib: RegexLib, out: Adjacency, e: Edge, marked: set<Vertex>, t: Tree)
    decreases t, 0
  {
    match t
    case Root(_, _, _) => false
    case Skip(before, via, left) => via == e && e.target !in marked && Refused(lib, e.transform, before.Left(), left)
    case Grow(before, via, left, _, child) =>
      && via == e && child.At() == e.target
      && if e.target in marked then child.Root? && left == before.Left()
         else && Traversed(lib, e.transform, before.Left(), left, child.Given())
              && e.target in out && Explored(lib, out, out[e.target], marked + {e.target}, child)
  }

  /** t is the search from v with attributes `given`, and with `visited` marked on entry. */
  ghost predicate IsLineage(lib: RegexLib, out: Adjacency, v: Vertex, visited: set<Vertex>, given: Attributes,
                            t: Tree) {
    t.At() == v && t.Given() == given && v in out && Explored(lib, out, out[v], visited + {v}, t)
  }

  // ---------- the paths of a tree ----------

  /** How many ways the path can be followed from the root of t. */
  ghost function Occurrences(t: Tree, path: seq<Edge>): nat {
    if path == [] then 1
    else if t.Root? then 0
    else Occurrences(t.before, path) + if t.Grow? && t.via == path[0] then Occurrences(t.child, path[1..]) else 0
  }

  /** The vertex from which path[i] is followed. */
  ghost function Before(v: Vertex, path: seq<Edge>, i: nat): Vertex
    requires i <= |path|
  {
    if i == 0 then v else path[i - 1].target
  }

  /** Each edge of the path leaves the vertex the previous one entered. */
  ghost predicate IsWalk(out: Adjacency, v: Vertex, path: seq<Edge>) {
    forall i | 0 <= i < |path| :: Before(v, path, i) in out && path[i] in out[Before(v, path, i)]
  }

  /** The vertices before the last are pairwise distinct, and none after v was marked on entry. */
  ghost predicate IsSimple(v: Vertex, visited: set<Vertex>, path: seq<Edge>) {
    && (forall i, j | 0 <= i < j < |path| :: Before(v, path, i) != Before(v, path, j))
    && (forall i | 0 < i < |path| :: Before(v, path, i) !in visited)
  }

  ghost predicate SimpleWalk(out: Adjacency, v: Vertex, visited: set<Vertex>, path: seq<Edge>) {
    IsWalk(out, v, path) && IsSimple(v, visited, path)
  }

  ghost predicate NoFilterOn(es: seq<Edge>) {
    forall e <- es :: !e.transform.AttributesFilterTransform?
  }

  /** What may follow the first edge: nothing, or a simple walk that avoids the marked vertices. */
  ghost predicate GoesOn(out: Adjacency, marked: set<Vertex>, path: seq<Edge>)
    requires path != []
  {
    |path| > 1 ==> path[0].target !in marked && SimpleWalk(out, path[0].target, marked, path[1..])
  }

  lemma SimpleWalkUnfold(out: Adjacency, v: Vertex, visited: set<Vertex>, path: seq<Edge>)
    requires path != []
    ensures SimpleWalk(out, v, visited, path) <==> v in out && path[0] in out[v] && GoesOn(out, visited + {v}, path)
  {
    var u, rest := path[0].target, path[1..];
    assert forall i | 1 <= i <= |path| :: Before(v, path, i) == Before(u, rest, i - 1);
    assert forall i | 0 <= i < |rest| :: rest[i] == path[i + 1];
    assert Before(v, path, 0) == v;
    if SimpleWalk(out, v, visited, path) {
      assert forall i | 0 <= i < |rest| :: Before(u, rest, i) == Before(v, path, i + 1);
      assert |path| > 1 ==> Before(v, path, 1) == u;
    }
    if |path| > 1 && v in out && path[0] in out[v] && GoesOn(out, visited + {v}, path) {
      assert Before(u, rest, 0) == u;
    }
  }

  lemma {:induction false} PathsOfExplored(lib: RegexLib, out: Adjacency, es: seq<Edge>, marked: set<Vertex>, t: Tree,
                                           path: seq<Edge>)
    requires GoodLists(out) && Distinct(es) && Explored(lib, out, es, marked, t) && path != []
    ensures Occurrences(t, path) <= 1
    ensures Occurrences(t, path) == 1 ==> path[0] in es && GoesOn(out, marked, path)
    ensures path[0] in es && GoesOn(out, marked, path) && NoFilterOn(path) ==> Occurrences(t, path) == 1
    decreases t
  {
    if es != [] {
      var front, e := es[..|es| - 1], es[|es| - 1];
      assert es == front + [e];
      PathsOfExplored(lib, out, front, marked, t.before, path);
      if t.Grow? && path[0] == e && |path| > 1 && e.target !in marked {
        PathsOfExplored(lib, out, out[e.target], marked + {e.target}, t.child, path[1..]);
        SimpleWalkUnfold(out, e.target, marked, path[1..]);
        assert NoFilterOn(path) ==> NoFilterOn(path[1..]);
      }
    }
  }

  /**
    The branches of a search result are paths of the graph whose vertices before the last are
    distinct: each occurs at most once, no other path occurs, and one that meets no attributes
    filter always occurs.
   */
  lemma BranchesAreSimpleWalks(lib: RegexLib, out: Adjacency, v: Vertex, visited: set<Vertex>, given: Attributes,
                               t: Tree, path: seq<Edge>)
    requires IsLineage(lib, out, v, visited, given, t) && GoodLists(out)
    ensures Occurrences(t, path) <= 1
    ensures Occurrences(t, path) == 1 ==> SimpleWalk(out, v, visited, path)
    ensures SimpleWalk(out, v, visited, path) && NoFilterOn(path) ==> Occurrences(t, path) == 1
  {
    if path != [] {
      PathsOfExplored(lib, out, out[v], visited + {v}, t, path);
      SimpleWalkUnfold(out, v, visited, path);
    }
  }

  /** Without attributes filters the tree has one branch for each such path and no other. */
  lemma ExactBranches(lib: RegexLib, out: Adjacency, v: Vertex, visited: set<Vertex>, given: Attributes, t: Tree,
                      path: seq<Edge>)
    requires IsLineage(lib, out, v, visited, given, t) && GoodLists(out)
    requires forall u <- out :: NoFilterOn(out[u])
    ensures Occurrences(t, path) == if SimpleWalk(out, v, visited, path) then 1 else 0
  {
    BranchesAreSimpleWalks(lib, out, v, visited, given, t, path);
    if SimpleWalk(out, v, visited, path) {
      forall i | 0 <= i < |path| ensures !path[i].transform.AttributesFilterTransform? {
        assert path[i] in out[Before(v, path, i)];
      }
    }
  }

  ghost function Turns(t: Tree): nat { if t.Root? then 0 else Turns(t.before) + 1 }

  /** The search t as it stood before its turn i. */
  ghost function Until(t: Tree, i: nat): Tree { if Turns(t) <= i then t else Until(t.before, i) }

  /** The edge can be followed with attributes m. */
  predicate Passable(lib: RegexLib, e: Edge, m: Attributes) {
    e.transform.AttributesFilterTransform? ==> Passes(lib, m, e.transform.filter)
  }

  lemma {:induction false} TurnsOfExplored(lib: RegexLib, out: Adjacency, es: seq<Edge>, marked: set<Vertex>, t: Tree)
    requires Explored(lib, out, es, marked, t)
    ensures Turns(t) == |es|
  {
    if es != [] {
      TurnsOfExplored(lib, out, es[..|es| - 1], marked, t.before);
    }
  }

  /**
    An edge gives a branch exactly if its target is marked or its filter passes the attributes left
    by the siblings explored before it, which all write to the one EventType.
   */
  lemma {:induction false} BranchIffPassable(lib: RegexLib, out: Adjacency, es: seq<Edge>, marked: set<Vertex>,
                                             t: Tree, i: nat)
    requires GoodLists(out) && Distinct(es) && Explored(lib, out, es, marked, t) && i < |es|
    ensures Occurrences(t, [es[i]])
         == if es[i].target in marked || Passable(lib, es[i], Until(t, i).Left()) then 1 else 0
    decreases t
  {
    var front := es[..|es| - 1];
    TurnsOfExplored(lib, out, front, marked, t.before);
    assert Turns(t) == |es|;
    if i == |es| - 1 {
      PathsOfExplored(lib, out, front, marked, t.before, [es[i]]);
    } else {
      assert front[i] == es[i] && es[i] in front;
      BranchIffPassable(lib, out, front, marked, t.before, i);
    }
  }

  // ---------- whole paths under filters ----------

  /** The branch that t made for edge e, if it did. */
  ghost function ChildOf(t: Tree, e: Edge): Option<Tree> {
    if t.Root? then None
    else if t.via == e then (if t.Grow? then Some(t.child) else None)
    else ChildOf(t.before, e)
  }

  /** The attributes that the turns before the one for e left. */
  ghost function LeftBefore(t: Tree, e: Edge): Attributes {
    if t.Root? then t.given else if t.via == e then t.before.Left() else LeftBefore(t.before, e)
  }

  /** The attributes that the turn for e left. */
  ghost function LeftAfter(t: Tree, e: Edge): Attributes {
    if t.Root? then t.given else if t.via == e then t.Left() else LeftAfter(t.before, e)
  }

  /**
    Every edge of the path leads to a marked vertex, or passes what its earlier siblings left in the
    EventType of the search that the path has reached by then.
   */
  ghost predicate AllPassable(lib: RegexLib, marked: set<Vertex>, t: Tree, path: seq<Edge>)
    decreases |path|
  {
    path == [] ||
    (&& (path[0].target in marked || Passable(lib, path[0], LeftBefore(t, path[0])))
     && (ChildOf(t, path[0]).Some? ==>
           AllPassable(lib, marked + {path[0].target}, ChildOf(t, path[0]).value, path[1..])))
  }

  /** A branch hangs on e iff e can be followed; its search is handed what e makes of the attributes left till then. */
  lemma {:induction false} ChildIff(lib: RegexLib, out: Adjacency, es: seq<Edge>, marked: set<Vertex>, t: Tree, e: Edge)
    requires Distinct(es) && Explored(lib, out, es, marked, t)
    ensures ChildOf(t, e).Some? <==> e in es && (e.target in marked || Passable(lib, e, LeftBefore(t, e)))
    ensures ChildOf(t, e).Some? ==>
      var c := ChildOf(t, e).value;
      if e.target in marked then c.Root? && LeftAfter(t, e) == LeftBefore(t, e)
      else && (match e.transform
               case NoTransform => LeftAfter(t, e) == LeftBefore(t, e) == c.Given()
               case EventTypeTransform(eventType) =>
                 LeftAfter(t, e) == LeftBefore(t, e) && c.Given() == ByName(eventType)
               case AttributesFilterTransform(f) =>
                 Written(LeftBefore(t, e), f, LeftAfter(t, e)) && c.Given() == LeftAfter(t, e)
               case CloudEventOverridesTransform(x) =>
                 Written(LeftBefore(t, e), x, LeftAfter(t, e)) && c.Given() == LeftAfter(t, e))
           && e.target in out && Explored(lib, out, out[e.target], marked + {e.target}, c)
    decreases t
  {
    if es != [] {
      var front, last := es[..|es| - 1], es[|es| - 1];
      assert es == front + [last];
      ChildIff(lib, out, front, marked, t.before, e);
    }
  }

  /** A path is followed through the branch of its first edge. */
  lemma {:induction false} OccursInChild(lib: RegexLib, out: Adjacency, es: seq<Edge>, marked: set<Vertex>, t: Tree,
                                         path: seq<Edge>)
    requires Distinct(es) && Explored(lib, out, es, marked, t) && path != []
    ensures Occurrences(t, path) == match ChildOf(t, path[0]) case None => 0 case Some(c) => Occurrences(c, path[1..])
    decreases t
  {
    if es != [] {
      var front, last := es[..|es| - 1], es[|es| - 1];
      assert es == front + [last];
      OccursInChild(lib, out, front, marked, t.before, path);
      ChildIff(lib, out, front, marked, t.before, path[0]);
    }
  }

  lemma {:induction false} ExploredPathIff(lib: RegexLib, out: Adjacency, es: seq<Edge>, marked: set<Vertex>, t: Tree,
                                           path: seq<Edge>)
    requires GoodLists(out) && Distinct(es) && Explored(lib, out, es, marked, t) && path != []
    ensures Occurrences(t, path)
         == if path[0] in es && GoesOn(out, marked, path) && AllPassable(lib, marked, t, path) then 1 else 0
    decreases |path|
  {
    var e, rest := path[0], path[1..];
    OccursInChild(lib, out, es, marked, t, path);
    ChildIff(lib, out, es, marked, t, e);
    if ChildOf(t, e).Some? && rest != [] && e.target !in marked {
      ExploredPathIff(lib, out, out[e.target], marked + {e.target}, ChildOf(t, e).value, rest);
      SimpleWalkUnfold(out, e.target, marked, rest);
    }
  }

  /**
    Under arbitrary transforms: a path is a branch of the result, once, if and only if its vertices
    before the last are distinct and each of its edges passes what was left and handed on till then.
   */
  lemma PathOccursIff(lib: RegexLib, out: Adjacency, v: Vertex, visited: set<Vertex>, given: Attributes, t: Tree,
                      path: seq<Edge>)
    requires IsLineage(lib, out, v, visited, given, t) && GoodLists(out)
    ensures Occurrences(t, path)
         == if SimpleWalk(out, v, visited, path) && AllPassable(lib, visited + {v}, t, path) then 1 else 0
  {
    if path != [] {
      ExploredPathIff(lib, out, out[v], visited + {v}, t, path);
      SimpleWalkUnfold(out, v, visited, path);
    }
  }

  // ---------- the tree in the heap ----------

  /**
    The fresh vertices spell out t: same references and dead-letter flags as the graph, each copy
    but the root with exactly one in-edge, and no copy shared between two places of the tree.
   */
  ghost predicate Represents(t: Tree)
    reads t.Copies()`outEdges, t.Copies()`visited, t.Below()`inEdges
    decreases t, 1
  {
    && t.Copy().self == t.At().self && t.Copy().parent == null
    && !t.Copy().visited && t.Copy().outEdges == t.Links()
    && t.Copy() !in t.Below() && Hung(t)
  }

  ghost predicate Hung(t: Tree)
    reads t.Below()`outEdges, t.Below()`visited, t.Below()`inEdges
    decreases t, 0
  {
    t.Root? || (t.Skip? && Hung(t.before)) ||
    (&& t.Grow? && EdgeIs(t.link, t.before.Copy(), t.child.Copy(), t.via.self, NoTransform, t.via.isDLS)
     && t.child.Copy().inEdges == [t.link] && t.child.Copies() !! t.before.Copies()
     && Represents(t.child) && Hung(t.before))
  }

  /** The graph edges for which t grew a branch, and the branches. */
  ghost function Vias(t: Tree): seq<Edge> { if t.Root? then [] else Vias(t.before) + if t.Grow? then [t.via] else [] }
  ghost function Children(t: Tree): seq<Tree> {
    if t.Root? then [] else Children(t.before) + if t.Grow? then [t.child] else []
  }

  /**
    Each out-edge of a copy has the reference and the dead-letter flag of the edge it was made for,
    and leads to a copy.
   */
  lemma {:induction false} CopiedEdges(t: Tree)
    requires Hung(t)
    ensures |t.Links()| == |Vias(t)| == |Children(t)|
    ensures forall i | 0 <= i < |Vias(t)| ::
      && t.Links()[i].self == Vias(t)[i].self && t.Links()[i].isDLS == Vias(t)[i].isDLS
      && t.Links()[i].target == Children(t)[i].Copy() && Represents(Children(t)[i])
  {
    if !t.Root? {
      CopiedEdges(t.before);
    }
  }

  /**
    res.AddEdge(child, ...) hangs one more subtree under the root of the tree built so far; cs and
    ds are the copies in the two trees.
   */
  method AddBranch(ghost t: Tree, ghost cs: set<Vertex>, ghost sub: Tree, ghost ds: set<Vertex>,
                   ghost left: Attributes, via: Edge, res: Vertex, child: Vertex) returns (ghost next: Tree)
    requires t.Copy() == res && t.Copies() == cs && Represents(t)
    requires sub.Copy() == child && sub.Copies() == ds && Represents(sub)
    requires cs !! ds && child.inEdges == []
    modifies res`outEdges, child`inEdges
    ensures next.Grow? && next.before == t && next.via == via && next.left == left && next.child == sub
    ensures Represents(next) && next.Copies() == cs + ds
  {
    var link := res.AddEdge(child, via.self, NoTransform, via.isDLS);
    next := Grow(t, via, left, link, sub);
  }

  // ---------- the search ----------

  /** out holds the out-lists of the vertices S, and no edge leaves S. */
  ghost predicate ListsAre(S: set<Vertex>, out: Adjacency)
    reads S`outEdges
  {
    out.Keys == S && (forall u <- S :: u.outEdges == out[u]) && (forall u <- S, e <- out[u] :: e.target in S)
  }

  ghost predicate MarkedAre(S: set<Vertex>, marked: set<Vertex>)
    reads S`visited
  {
    marked <= S && forall u <- S :: u.visited <==> u in marked
  }

  lemma ExploredStep(lib: RegexLib, out: Adjacency, es: seq<Edge>, i: nat, marked: set<Vertex>, next: Tree)
    requires i < |es| && !next.Root? && Explored(lib, out, es[..i], marked, next.before)
    requires Turn(lib, out, es[i], marked, next)
    ensures Explored(lib, out, es[..i + 1], marked, next)
  {
    assert es[..i + 1][..i] == es[..i];
  }

  /** The transform, and the deep copy handed to the next level. */
  method Narrow(lib: RegexLib, transform: Transform, et: EventType) returns (copy: EventType?)
    modifies et
    ensures copy == null ==> Refused(lib, transform, ByName(old(et.attributes)), ByName(et.attributes))
    ensures copy != null ==> fresh(copy)
    ensures copy != null ==>
      Traversed(lib, transform, ByName(old(et.attributes)), ByName(et.attributes), ByName(copy.attributes))
  {
    copy := Apply(lib, transform, et);
    if copy != null {
      copy := copy.DeepCopy();
    }
  }

  /** The branch for an edge to a marked vertex: a lone copy of it. */
  method AddLeaf(edge: Edge, res: Vertex, ghost t: Tree, ghost cs: set<Vertex>)
      returns (ghost next: Tree, ghost added: set<Vertex>)
    requires Built(t, cs, res)
    modifies res`outEdges
    ensures next.Grow? && next.before == t && next.via == edge && next.left == t.Left()
    ensures next.child.Root? && next.child.At() == edge.target
    ensures Built(next, cs + added, res) && fresh(added)
  {
    var leaf := new Vertex(edge.target.self, null);
    next := AddBranch(t, cs, Root(edge.target, leaf, t.Left()), {leaf}, t.Left(), edge, res, leaf);
    added := {leaf};
  }

  /** res is the root of a tree t with copies cs, and nothing points to it yet. */
  ghost predicate Built(t: Tree, cs: set<Vertex>, res: Vertex)
    reads cs, res, t.Copies()
  {
    t.Copy() == res && t.Copies() == cs && Represents(t) && res.inEdges == []
  }

  /** The branch for an edge to an unmarked vertex: the lineage of that vertex. */
  method AddSubtree(lib: RegexLib, edge: Edge, narrowed: EventType, res: Vertex, ghost S: set<Vertex>,
                    ghost out: Adjacency,
                    ghost marked: set<Vertex>, ghost t: Tree, ghost cs: set<Vertex>, ghost left: Attributes)
      returns (ghost next: Tree, ghost added: set<Vertex>)
    requires ListsAre(S, out) && MarkedAre(S, marked) && edge.target in S - marked
    requires Built(t, cs, res) && cs !! S
    modifies S`visited, narrowed, res`outEdges
    ensures MarkedAre(S, marked)
    ensures next.Grow? && next.before == t && next.via == edge && next.left == left
    ensures IsLineage(lib, out, edge.target, marked, ByName(old(narrowed.attributes)), next.child)
    ensures Built(next, cs + added, res) && fresh(added)
    decreases S - marked, 2
  {
    var child, sub, ds := VertexLineage(lib, edge.target, narrowed, S, out, marked);
    next := AddBranch(t, cs, sub, ds, left, edge, res, child);
    added := ds;
  }

  /** One turn of Vertex.Lineage's loop. */
  method ExploreEdge(lib: RegexLib, edge: Edge, et: EventType, res: Vertex, ghost S: set<Vertex>, ghost out: Adjacency,
                     ghost marked: set<Vertex>, ghost t: Tree, ghost cs: set<Vertex>)
      returns (ghost next: Tree, ghost added: set<Vertex>)
    requires ListsAre(S, out) && MarkedAre(S, marked) && edge.target in S
    requires Built(t, cs, res) && cs !! S && t.Left() == ByName(et.attributes)
    modifies S`visited, et, res`outEdges
    ensures MarkedAre(S, marked)
    ensures !next.Root? && next.before == t && next.Left() == ByName(et.attributes)
    ensures Built(next, cs + added, res) && fresh(added)
    ensures Turn(lib, out, edge, marked, next)
    decreases S - marked, 3
  {
    if edge.target.visited {
      next, added := AddLeaf(edge, res, t, cs);
      return;
    }
    var narrowed := Narrow(lib, edge.transform, et);
    if narrowed == null {
      next, added := Skip(t, edge, ByName(et.attributes)), {};
    } else {
      next, added := AddSubtree(lib, edge, narrowed, res, S, out, marked, t, cs, ByName(et.attributes));
    }
  }

  /** Vertex.Lineage's loop over the out-edges toExplore of v, which is marked. */
  method ExploreAll(lib: RegexLib, toExplore: seq<Edge>, et: EventType, res: Vertex, ghost S: set<Vertex>,
                    ghost out: Adjacency,
                    ghost marked: set<Vertex>, ghost v: Vertex) returns (ghost t: Tree, ghost cs: set<Vertex>)
    requires ListsAre(S, out) && MarkedAre(S, marked) && forall e <- toExplore :: e.target in S
    requires Built(Root(v, res, ByName(et.attributes)), {res}, res) && res !in S
    modifies S`visited, et, res`outEdges
    ensures MarkedAre(S, marked)
    ensures t.At() == v && t.Given() == ByName(old(et.attributes)) && Built(t, cs, res) && fresh(cs - {res})
    ensures Explored(lib, out, toExplore, marked, t)
    decreases S - marked, 4
  {
    t, cs := Root(v, res, ByName(et.attributes)), {res};
    for i := 0 to |toExplore|
      invariant t.At() == v && t.Given() == ByName(old(et.attributes)) && t.Left() == ByName(et.attributes)
      invariant Built(t, cs, res) && fresh(cs - {res})
      invariant MarkedAre(S, marked)
      invariant Explored(lib, out, toExplore[..i], marked, t)
    {
      ghost var next, added := ExploreEdge(lib, toExplore[i], et, res, S, out, marked, t, cs);
      ExploredStep(lib, out, toExplore, i, marked, next);
      t, cs := next, cs + added;
    }
    assert toExplore[..|toExplore|] == toExplore;
  }

  /**
    Vertex.Lineage.  S is any set of vertices that v's edges do not leave, such as v's graph, with
    out-lists `out` and the vertices `marked` visited; the ghost results describe what was created.
   */
  method VertexLineage(lib: RegexLib, v: Vertex, et: EventType, ghost S: set<Vertex>, ghost out: Adjacency,
                       ghost marked: set<Vertex>)
      returns (res: Vertex, ghost t: Tree, ghost cs: set<Vertex>)
    requires ListsAre(S, out) && MarkedAre(S, marked) && v in S
    modifies S`visited, et
    ensures Built(t, cs, res) && fresh(cs)
    ensures IsLineage(lib, out, v, marked, ByName(old(et.attributes)), t)
    ensures MarkedAre(S, marked - {v})
    decreases S - marked, if v in marked then 5 else 1
  {
    var toExplore := v.outEdges;
    v.visited := true;
    res := new Vertex(v.self, null);
    t, cs := ExploreAll(lib, toExplore, et, res, S, out, marked + {v}, v);
    v.visited := false;
  }

  /** One result of Graph.Lineage: its root, the search it came from, and the copies it is made of. */
  datatype Found = Found(root: Vertex, tree: Tree, copies: set<Vertex>)

  /** The result is a lineage of v, from an empty EventType. */
  ghost predicate IsFound(lib: RegexLib, out: Adjacency, v: Vertex, f: Found)
    reads f.copies, f.root, f.tree.Copies()
  {
    Built(f.tree, f.copies, f.root) && IsLineage(lib, out, v, {}, map[], f.tree)
  }

  /** One turn of Graph.Lineage's loop. */
  method LineageOf(lib: RegexLib, v: Vertex, ghost S: set<Vertex>, ghost out: Adjacency)
      returns (root: Vertex, ghost f: Found)
    requires ListsAre(S, out) && MarkedAre(S, {}) && v in S
    modifies S`visited
    ensures MarkedAre(S, {}) && IsFound(lib, out, v, f) && f.root == root && fresh(f.copies)
  {
    var empty := new EventType([]);
    ghost var t, cs;
    root, t, cs := VertexLineage(lib, v, empty, S, out, {});
    f := Found(root, t, cs);
  }

  /** Graph.Lineage's loop. */
  method LineageFrom(lib: RegexLib, from: seq<Vertex>, ghost S: set<Vertex>, ghost out: Adjacency)
      returns (roots: seq<Vertex>, ghost found: seq<Found>)
    requires ListsAre(S, out) && MarkedAre(S, {}) && forall v <- from :: v in S
    modifies S`visited
    ensures MarkedAre(S, {}) && |roots| == |from| == |found|
    ensures forall i | 0 <= i < |found| :: IsFound(lib, out, from[i], found[i]) && found[i].root == roots[i]
    ensures forall i | 0 <= i < |found| :: fresh(found[i].copies)
  {
    roots, found := [], [];
    for i := 0 to |from|
      invariant MarkedAre(S, {}) && |roots| == |found| == i
      invariant forall j | 0 <= j < i :: IsFound(lib, out, from[j], found[j]) && found[j].root == roots[j]
      invariant forall j | 0 <= j < i :: fresh(found[j].copies)
    {
      assert from[i] in from;
      var root, f := LineageOf(lib, from[i], S, out);
      roots, found := roots + [root], found + [f];
    }
  }

  /** The edges of a well-formed graph do not leave it, and no out-list repeats one. */
  lemma GraphLists(g: Graph, out: Adjacency)
    requires g.Valid() && out == map u | u in g.vertices.Values :: u.outEdges
    ensures ListsAre(g.vertices.Values, out) && GoodLists(out)
  {
    forall u | u in out ensures Distinct(out[u]) {
      assert g.InStep(u);
      OutOfDistinct(g.log, u);
    }
    forall u: Vertex, e: Edge | u in out && e in out[u] ensures e.target in g.vertices.Values {
      assert g.InStep(u);
      ViewMembers(g.log, e);
      assert g.Inside(e);
    }
  }

  /** The sources of a well-formed graph, with its out-lists. */
  method StartOf(g: Graph) returns (from: seq<Vertex>, ghost out: Adjacency)
    requires g.Valid()
    ensures Enumerates(from, g.SourceSet()) && forall v <- from :: v in g.vertices.Values
    ensures ListsAre(g.vertices.Values, out) && GoodLists(out)
  {
    out := map u | u in g.vertices.Values :: u.outEdges;
    GraphLists(g, out);
    from := g.Sources();
  }

  /** Graph.Lineage: one tree for each vertex with out-edges and no in-edges. */
  method GraphLineage(lib: RegexLib, g: Graph)
      returns (roots: seq<Vertex>, ghost out: Adjacency, ghost sources: seq<Vertex>, ghost found: seq<Found>)
    requires g.Valid() && MarkedAre(g.vertices.Values, {})
    modifies g.vertices.Values`visited
    ensures g.Valid() && MarkedAre(g.vertices.Values, {})
    ensures ListsAre(g.vertices.Values, out) && GoodLists(out)
    ensures Enumerates(sources, g.SourceSet()) && |roots| == |sources| == |found|
    ensures forall i | 0 <= i < |found| :: IsFound(lib, out, sources[i], found[i]) && found[i].root == roots[i]
    ensures forall i | 0 <= i < |found| :: fresh(found[i].copies)
  {
    var from;
    from, out := StartOf(g);
    roots, found := LineageFrom(lib, from, g.vertices.Values, out);
    sources := from;
  }
}
