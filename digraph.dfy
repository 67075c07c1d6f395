/**
 * Directed graphs over names, as the effect graph of a study design is one:
 * an edge `(u, v)` means an effect `u -> v`. Paths, reachability by zero or
 * more edges, acyclicity, and the adjacency maps the graph code builds.
 */
module Digraph {

  type Graph = set<(string, string)>

  predicate Edge(g: Graph, u: string, v: string) {
    (u, v) in g
  }

  /** `p` is a walk of zero or more edges of `g`, listed by its nodes. */
  ghost predicate IsPath(g: Graph, p: seq<string>) {
    |p| >= 1 && forall i :: 0 <= i < |p| - 1 ==> Edge(g, p[i], p[i + 1])
  }

  ghost predicate PathFrom(g: Graph, p: seq<string>, a: string, b: string) {
    IsPath(g, p) && p[0] == a && p[|p| - 1] == b
  }

  /** `b` can be reached from `a` by zero or more edges. */
  ghost predicate Reachable(g: Graph, a: string, b: string) {
    exists p :: PathFrom(g, p, a, b)
  }

  /** No edge `u -> v` can be followed back from `v` to `u`: there is no directed cycle. */
  ghost predicate Acyclic(g: Graph) {
    forall u, v :: Edge(g, u, v) ==> !Reachable(g, v, u)
  }

  // ---------------------------------------------------------------------------
  // Reachability
  // ---------------------------------------------------------------------------

  lemma ReachableSelf(g: Graph, a: string)
    ensures Reachable(g, a, a)
  {
    assert PathFrom(g, [a], a, a);
  }

  lemma ReachableStep(g: Graph, a: string, b: string, c: string)
    requires Reachable(g, a, b) && Edge(g, b, c)
    ensures Reachable(g, a, c)
  {
    var p :| PathFrom(g, p, a, b);
    var q := p + [c];
    assert PathFrom(g, q, a, c);
  }

  lemma ReachableEdge(g: Graph, a: string, b: string)
    requires Edge(g, a, b)
    ensures Reachable(g, a, b)
  {
    ReachableSelf(g, a);
    ReachableStep(g, a, a, b);
  }

  lemma {:induction false} PathPrefix(g: Graph, p: seq<string>, k: nat)
    requires IsPath(g, p) && 1 <= k <= |p|
    ensures IsPath(g, p[..k])
  {
  }

  /** A walk extended by an edge out of its last node is still a walk. */
  lemma PathExtend(g: Graph, p: seq<string>, v: string)
    requires p == [] || (IsPath(g, p) && Edge(g, p[|p| - 1], v))
    ensures IsPath(g, p + [v])
  {
    var q := p + [v];
    forall i | 0 <= i < |q| - 1
      ensures Edge(g, q[i], q[i + 1])
    {
      if i < |p| - 1 {
        assert q[i] == p[i] && q[i + 1] == p[i + 1];
      }
    }
  }

  /** A walk whose last node has an edge back to one of the walk's own nodes closes a cycle. */
  lemma WalkBackEdgeIsCycle(g: Graph, p: seq<string>, w: string)
    requires IsPath(g, p) && w in p && Edge(g, p[|p| - 1], w)
    ensures !Acyclic(g)
  {
    var j :| 0 <= j < |p| && p[j] == w;
    var q := p[j..];
    forall i | 0 <= i < |q| - 1
      ensures Edge(g, q[i], q[i + 1])
    {
      assert q[i] == p[j + i] && q[i + 1] == p[j + i + 1];
    }
    assert PathFrom(g, q, w, p[|p| - 1]);
  }

  /** Reachability in `g` carries over to every graph that has at least `g`'s edges. */
  lemma {:induction false} ReachableMonotone(g: Graph, h: Graph, a: string, b: string)
    requires g <= h && Reachable(g, a, b)
    ensures Reachable(h, a, b)
  {
    var p :| PathFrom(g, p, a, b);
    assert PathFrom(h, p, a, b);
  }

  lemma {:induction false} PathStaysInClosedSet(g: Graph, s: set<string>, p: seq<string>)
    requires IsPath(g, p) && p[0] in s
    requires forall u, v :: u in s && Edge(g, u, v) ==> v in s
    ensures p[|p| - 1] in s
    decreases |p|
  {
    if |p| > 1 {
      PathPrefix(g, p, |p| - 1);
      PathStaysInClosedSet(g, s, p[..|p| - 1]);
      assert Edge(g, p[|p| - 2], p[|p| - 1]);
    }
  }

  /** A set closed under the edges contains everything reachable from its members. */
  lemma ClosedSetContainsReachable(g: Graph, s: set<string>, a: string, b: string)
    requires a in s
    requires forall u, v :: u in s && Edge(g, u, v) ==> v in s
    requires Reachable(g, a, b)
    ensures b in s
  {
    var p :| PathFrom(g, p, a, b);
    PathStaysInClosedSet(g, s, p);
  }

  /** With no edges, a node reaches only itself. */
  lemma EmptyGraphReachable(a: string, b: string)
    ensures Reachable({}, a, b) <==> a == b
  {
    if a == b {
      ReachableSelf({}, a);
    } else if Reachable({}, a, b) {
      ClosedSetContainsReachable({}, {a}, a, b);
    }
  }

  // ---------------------------------------------------------------------------
  // Adding one edge
  // ---------------------------------------------------------------------------

  /** A walk in `g` plus the edge `c -> t` either avoids the new edge, or reaches `c`
      before its first use and leaves `t` after its last use, both within `g`. */
  lemma {:induction false} PathWithNewEdge(g: Graph, c: string, t: string, p: seq<string>)
    requires IsPath(g + {(c, t)}, p)
    ensures Reachable(g, p[0], p[|p| - 1]) || (Reachable(g, p[0], c) && Reachable(g, t, p[|p| - 1]))
    decreases |p|
  {
    if |p| == 1 {
      ReachableSelf(g, p[0]);
    } else {
      var q := p[..|p| - 1];
      PathPrefix(g + {(c, t)}, p, |p| - 1);
      PathWithNewEdge(g, c, t, q);
      var z, y := p[|p| - 2], p[|p| - 1];
      assert q[0] == p[0] && q[|q| - 1] == z;
      assert Edge(g + {(c, t)}, z, y);
      if (z, y) in g {
        if Reachable(g, p[0], z) {
          ReachableStep(g, p[0], z, y);
        } else {
          ReachableStep(g, t, z, y);
        }
      } else {
        assert z == c && y == t;
        ReachableSelf(g, t);
      }
    }
  }

  /** Adding `c -> t` to an acyclic graph keeps it acyclic when `c` is not already reachable from `t`. */
  lemma AddEdgeKeepsAcyclic(g: Graph, c: string, t: string)
    requires Acyclic(g) && !Reachable(g, t, c)
    ensures Acyclic(g + {(c, t)})
  {
    var h := g + {(c, t)};
    forall u, v | Edge(h, u, v)
      ensures !Reachable(h, v, u)
    {
      if Reachable(h, v, u) {
        var p :| PathFrom(h, p, v, u);
        PathWithNewEdge(g, c, t, p);
        if (u, v) in g && !Reachable(g, v, u) {
          // t ->* u -> v ->* c would already be a path in g
          ReachableStep(g, t, u, v);
          ReachableTransitive(g, t, v, c);
        }
        assert false;
      }
    }
  }

  /** If `c` is reachable from `t`, adding `c -> t` closes a cycle. */
  lemma PathThenEdgeIsCycle(g: Graph, c: string, t: string)
    requires Reachable(g, t, c)
    ensures !Acyclic(g + {(c, t)})
  {
    ReachableMonotone(g, g + {(c, t)}, t, c);
    assert Edge(g + {(c, t)}, c, t);
  }

  lemma ReachableTransitive(g: Graph, a: string, b: string, c: string)
    requires Reachable(g, a, b) && Reachable(g, b, c)
    ensures Reachable(g, a, c)
  {
    var p :| PathFrom(g, p, a, b);
    var q :| PathFrom(g, q, b, c);
    var r := p + q[1..];
    assert forall i :: 0 <= i < |p| ==> r[i] == p[i];
    assert forall i :: |p| <= i < |r| ==> r[i] == q[i - |p| + 1];
    assert forall i :: 0 <= i < |r| - 1 ==> Edge(g, r[i], r[i + 1]) by {
      forall i | 0 <= i < |r| - 1
        ensures Edge(g, r[i], r[i + 1])
      {
        if i < |p| - 1 {
        } else {
          assert r[i] == q[i - |p| + 1];
        }
      }
    }
    assert PathFrom(g, r, a, c);
  }

  // ---------------------------------------------------------------------------
  // Ranks: a graph whose every edge strictly lowers a rank has no cycle
  // ---------------------------------------------------------------------------

  ghost predicate RankDecreasesAlongEdges(g: Graph, rank: map<string, nat>) {
    forall u, v :: Edge(g, u, v) ==> u in rank && v in rank && rank[v] < rank[u]
  }

  lemma {:induction false} RankAlongPath(g: Graph, rank: map<string, nat>, p: seq<string>)
    requires RankDecreasesAlongEdges(g, rank)
    requires IsPath(g, p) && p[0] in rank
    ensures p[|p| - 1] in rank && rank[p[|p| - 1]] <= rank[p[0]]
    decreases |p|
  {
    if |p| > 1 {
      PathPrefix(g, p, |p| - 1);
      RankAlongPath(g, rank, p[..|p| - 1]);
      assert Edge(g, p[|p| - 2], p[|p| - 1]);
    }
  }

  lemma RankedGraphIsAcyclic(g: Graph, rank: map<string, nat>)
    requires RankDecreasesAlongEdges(g, rank)
    ensures Acyclic(g)
  {
    forall u, v | Edge(g, u, v)
      ensures !Reachable(g, v, u)
    {
      if Reachable(g, v, u) {
        var p :| PathFrom(g, p, v, u);
        RankAlongPath(g, rank, p);
      }
    }
  }

  // ---------------------------------------------------------------------------
  // Adjacency maps: source -> list of targets
  // ---------------------------------------------------------------------------

  /** The neighbours the graph code looks up, `adj.get(u) || []`. */
  function Neighbors(adj: map<string, seq<string>>, u: string): seq<string> {
    if u in adj then adj[u] else []
  }

  /** The edges an adjacency map describes. */
  ghost function AdjEdges(adj: map<string, seq<string>>): Graph {
    set u, v | u in adj && v in adj[u] :: (u, v)
  }

  /** The nodes an adjacency map mentions, as source or as target. */
  ghost function AdjNodes(adj: map<string, seq<string>>): set<string> {
    adj.Keys + (set u, v | u in adj && v in adj[u] :: v)
  }

  lemma AdjEdgesMeaning(adj: map<string, seq<string>>, u: string, v: string)
    ensures Edge(AdjEdges(adj), u, v) <==> v in Neighbors(adj, u)
  {
    if v in Neighbors(adj, u) {
      assert (u, v) in AdjEdges(adj);
    }
  }

  lemma NeighborInAdjNodes(adj: map<string, seq<string>>, u: string, v: string)
    requires v in Neighbors(adj, u)
    ensures u in AdjNodes(adj) && v in AdjNodes(adj)
  {
    assert u in adj;
  }

  /** Appending `v` to `u`'s list adds exactly the edge `u -> v`. */
  lemma AdjEdgesAppend(adj: map<string, seq<string>>, u: string, v: string)
    ensures AdjEdges(adj[u := Neighbors(adj, u) + [v]]) == AdjEdges(adj) + {(u, v)}
  {
    var adj' := adj[u := Neighbors(adj, u) + [v]];
    forall x, y
      ensures (x, y) in AdjEdges(adj') <==> (x, y) in AdjEdges(adj) + {(u, v)}
    {
      AdjEdgesMeaning(adj', x, y);
      AdjEdgesMeaning(adj, x, y);
    }
  }
}
