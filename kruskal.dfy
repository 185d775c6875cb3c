/**
 * Kruskal's scan that builds the road network: the candidate edges are
 * sorted by weight and an edge is kept exactly when its two ends are not yet
 * in the same set of the union-find structure.
 *
 * The reference for the scan is `Forest`, the greedy forest defined by plain
 * graph connectivity; `Kruskal` is proved to compute it with the union-find
 * test, and the facts about what it keeps are proved about `Forest`.
 */
module Spanning {
  import opened Wrappers
  import opened Seqs
  import opened DisjointSets
  import opened Hex

  /** A candidate edge `(a, b, poids)`: two nodes and the weight of the route between them. */
  datatype Edge = Edge(a: Coord, b: Coord, w: real)

  predicate SortedByWeight(es: seq<Edge>) {
    forall i, j :: 0 <= i < j < |es| ==> es[i].w <= es[j].w
  }

  lemma SortedCons(e: Edge, es: seq<Edge>)
    requires SortedByWeight(es) && forall x :: x in es ==> e.w <= x.w
    ensures SortedByWeight([e] + es)
  {
    forall i, j | 0 <= i < j < |[e] + es| ensures ([e] + es)[i].w <= ([e] + es)[j].w {
      if i > 0 {
        assert ([e] + es)[i] == es[i - 1];
      }
      assert ([e] + es)[j] == es[j - 1];
    }
  }

  /** Insert `e` after every edge that is not heavier than it, so equal weights keep their order. */
  function Insert(e: Edge, es: seq<Edge>): (r: seq<Edge>)
    requires SortedByWeight(es)
    ensures SortedByWeight(r)
    ensures multiset(r) == multiset(es) + multiset{e}
    ensures forall x :: x in r <==> x == e || x in es
  {
    if es == [] then [e]
    else if e.w < es[0].w then
      SortedCons(e, es);
      [e] + es
    else
      var rest := Insert(e, es[1..]);
      assert es == [es[0]] + es[1..];
      SortedCons(es[0], rest);
      [es[0]] + rest
  }

  /** `sorted(edges, key=weight)`: the edges in non-decreasing weight order, a permutation of the input. */
  function SortByWeight(es: seq<Edge>): (r: seq<Edge>)
    ensures SortedByWeight(r)
    ensures multiset(r) == multiset(es)
    ensures forall e :: e in r <==> e in es
  {
    if es == [] then []
    else
      var init := es[..|es| - 1];
      assert es == init + [es[|es| - 1]];
      var r := Insert(es[|es| - 1], SortByWeight(init));
      assert forall e :: e in r <==> e in multiset(r);
      r
  }

  /** `x` and `y` are the two ends of some edge of `es`, in either direction. */
  ghost predicate Joins(es: seq<Edge>, x: Coord, y: Coord) {
    exists e :: e in es && ((e.a == x && e.b == y) || (e.a == y && e.b == x))
  }

  /** `p` walks from `u` to `v` along edges of `es`. */
  ghost predicate IsPath(es: seq<Edge>, p: seq<Coord>, u: Coord, v: Coord) {
    && |p| >= 1 && p[0] == u && p[|p| - 1] == v
    && forall i :: 0 <= i < |p| - 1 ==> Joins(es, p[i], p[i + 1])
  }

  /** `u` and `v` lie in the same connected component of the graph with edges `es`. */
  ghost predicate Connected(es: seq<Edge>, u: Coord, v: Coord) {
    exists p :: IsPath(es, p, u, v)
  }

  lemma ConnectedRefl(es: seq<Edge>, u: Coord)
    ensures Connected(es, u, u)
  {
    assert IsPath(es, [u], u, u);
  }

  lemma ConnectedEdge(es: seq<Edge>, e: Edge)
    requires e in es
    ensures Connected(es, e.a, e.b)
  {
    assert Joins(es, e.a, e.b);
    assert IsPath(es, [e.a, e.b], e.a, e.b);
  }

  lemma ConnectedSym(es: seq<Edge>, u: Coord, v: Coord)
    requires Connected(es, u, v)
    ensures Connected(es, v, u)
  {
    var p :| IsPath(es, p, u, v);
    var q := Reverse(p);
    forall i | 0 <= i < |q| - 1
      ensures Joins(es, q[i], q[i + 1])
    {
      var j := |p| - 2 - i;
      assert q[i] == p[j + 1] && q[i + 1] == p[j];
      assert Joins(es, p[j], p[j + 1]);
    }
    assert IsPath(es, q, v, u);
  }

  lemma ConnectedTrans(es: seq<Edge>, u: Coord, v: Coord, x: Coord)
    requires Connected(es, u, v) && Connected(es, v, x)
    ensures Connected(es, u, x)
  {
    var p :| IsPath(es, p, u, v);
    var q :| IsPath(es, q, v, x);
    var r := p + q[1..];
    forall i | 0 <= i < |r| - 1
      ensures Joins(es, r[i], r[i + 1])
    {
      if i < |p| - 1 {
        assert r[i] == p[i] && r[i + 1] == p[i + 1];
      } else {
        var j := i - (|p| - 1);
        assert r[i] == q[j] && r[i + 1] == q[j + 1];
      }
    }
    assert IsPath(es, r, u, x);
  }

  /** More edges never disconnect anything. */
  lemma ConnectedMono(es: seq<Edge>, fs: seq<Edge>, u: Coord, v: Coord)
    requires forall e :: e in es ==> e in fs
    requires Connected(es, u, v)
    ensures Connected(fs, u, v)
  {
    var p :| IsPath(es, p, u, v);
    forall i | 0 <= i < |p| - 1
      ensures Joins(fs, p[i], p[i + 1])
    {
      assert Joins(es, p[i], p[i + 1]);
    }
    assert IsPath(fs, p, u, v);
  }

  /**
   * The greedy forest of `es`: each edge in turn is kept exactly when its
   * ends are not yet connected by the edges kept before it.
   */
  ghost function Forest(es: seq<Edge>): seq<Edge>
  {
    if es == [] then []
    else
      var kept := Forest(es[..|es| - 1]);
      var e := es[|es| - 1];
      if Connected(kept, e.a, e.b) then kept else kept + [e]
  }

  /** The kept edges are taken from `es`, in the order of `es`. */
  lemma {:induction false} ForestIsSubseq(es: seq<Edge>)
    ensures IsSubseq(Forest(es), es)
    ensures forall f :: f in Forest(es) ==> f in es
    decreases |es|
  {
    if es != [] {
      var init := es[..|es| - 1];
      var e := es[|es| - 1];
      assert es == init + [e];
      ForestIsSubseq(init);
      SubseqExtend(Forest(init), init, e);
    }
  }

  /** Scanned in sorted order, the kept edges are in non-decreasing weight order. */
  lemma {:induction false} ForestSorted(es: seq<Edge>)
    requires SortedByWeight(es)
    ensures SortedByWeight(Forest(es))
    decreases |es|
  {
    if es != [] {
      var init := es[..|es| - 1];
      var e := es[|es| - 1];
      assert SortedByWeight(init);
      ForestSorted(init);
      ForestIsSubseq(init);
      forall f | f in Forest(init) ensures f.w <= e.w {
        assert f in init;
      }
    }
  }

  /**
   * The cycle test of the scan: edge `k` of the sorted list is rejected
   * exactly when the edges kept before it, none of them heavier, already
   * connect its ends; otherwise it is appended.
   */
  lemma ScanStep(tri: seq<Edge>, k: nat)
    requires SortedByWeight(tri) && k < |tri|
    ensures forall f :: f in Forest(tri[..k]) ==> f.w <= tri[k].w
    ensures Connected(Forest(tri[..k]), tri[k].a, tri[k].b) ==> Forest(tri[..k + 1]) == Forest(tri[..k])
    ensures !Connected(Forest(tri[..k]), tri[k].a, tri[k].b) ==> Forest(tri[..k + 1]) == Forest(tri[..k]) + [tri[k]]
  {
    assert tri[..k + 1][..k] == tri[..k];
    ForestIsSubseq(tri[..k]);
    forall f | f in Forest(tri[..k]) ensures f.w <= tri[k].w {
      var j :| 0 <= j < k && tri[..k][j] == f;
    }
  }

  /** The roots of a parent map: one per disjoint set. */
  ghost function Roots(parent: map<Coord, Option<Coord>>): set<Coord> {
    set z | z in parent && parent[z] == None
  }

  /** Every element is connected, by the edges `es`, to its representative. */
  ghost predicate RootsLinked(parent: map<Coord, Option<Coord>>, level: map<Coord, nat>, es: seq<Edge>)
    requires Leveled(parent, level)
  {
    forall z {:trigger Connected(es, z, Find(parent, level, z))} :: z in parent ==> Connected(es, z, Find(parent, level, z))
  }

  /** The two ends of every edge of `es` share a representative. */
  ghost predicate EdgesInOneSet(parent: map<Coord, Option<Coord>>, level: map<Coord, nat>, es: seq<Edge>)
    requires Leveled(parent, level)
  {
    forall e :: e in es ==> e.a in parent && e.b in parent && Find(parent, level, e.a) == Find(parent, level, e.b)
  }

  /** A path along edges whose ends share a representative never leaves that set. */
  lemma {:induction false} PathStaysInSet(parent: map<Coord, Option<Coord>>, level: map<Coord, nat>,
                                             es: seq<Edge>, p: seq<Coord>, u: Coord, v: Coord)
    requires Leveled(parent, level) && EdgesInOneSet(parent, level, es)
    requires u in parent && IsPath(es, p, u, v)
    ensures v in parent && Find(parent, level, u) == Find(parent, level, v)
    decreases |p|
  {
    if |p| > 1 {
      var q := p[..|p| - 1];
      var w := q[|q| - 1];
      assert IsPath(es, q, u, w) by {
        forall i | 0 <= i < |q| - 1 ensures Joins(es, q[i], q[i + 1]) {
          assert q[i] == p[i] && q[i + 1] == p[i + 1];
        }
      }
      PathStaysInSet(parent, level, es, q, u, w);
      assert Joins(es, p[|p| - 2], p[|p| - 1]);
    }
  }

  /** With both invariants of the scan, sharing a representative is exactly being connected. */
  lemma SameSetIffConnected(parent: map<Coord, Option<Coord>>, level: map<Coord, nat>, es: seq<Edge>, u: Coord, v: Coord)
    requires Leveled(parent, level) && u in parent && v in parent
    requires RootsLinked(parent, level, es) && EdgesInOneSet(parent, level, es)
    ensures Find(parent, level, u) == Find(parent, level, v) <==> Connected(es, u, v)
  {
    if Connected(es, u, v) {
      var p :| IsPath(es, p, u, v);
      PathStaysInSet(parent, level, es, p, u, v);
    }
    if Find(parent, level, u) == Find(parent, level, v) {
      var r := Find(parent, level, u);
      assert Connected(es, v, r);
      ConnectedSym(es, v, r);
      ConnectedTrans(es, u, r, v);
    }
  }

  /**
   * Linking the root `xr` of `e.a` under the root `yr` of `e.b` (accepting
   * `e`) keeps every element connected to its representative once `e` is
   * among the edges.
   */
  lemma LinkKeepsRootsLinked(parent: map<Coord, Option<Coord>>, level: map<Coord, nat>,
                             kept: seq<Edge>, e: Edge, xr: Coord, yr: Coord)
    requires Leveled(parent, level) && e.a in parent && e.b in parent
    requires xr == Find(parent, level, e.a) && yr == Find(parent, level, e.b) && xr != yr
    requires RootsLinked(parent, level, kept)
    ensures Leveled(parent[xr := Some(yr)], LinkLevels(parent, level, xr, yr))
    ensures RootsLinked(parent[xr := Some(yr)], LinkLevels(parent, level, xr, yr), kept + [e])
  {
    var parent', level' := parent[xr := Some(yr)], LinkLevels(parent, level, xr, yr);
    LinkKeepsLeveled(parent, level, xr, yr);
    var kept' := kept + [e];
    forall z | z in parent'
      ensures Connected(kept', z, Find(parent', level', z))
    {
      var r := Find(parent, level, z);
      FindAfterLink(parent, level, xr, yr, level', z);
      assert Connected(kept, z, r);
      ConnectedMono(kept, kept', z, r);
      if r == xr {
        assert Connected(kept, e.a, xr) && Connected(kept, e.b, yr);
        ConnectedMono(kept, kept', e.a, xr);
        ConnectedMono(kept, kept', e.b, yr);
        ConnectedSym(kept', e.a, xr);
        ConnectedEdge(kept', e);
        ConnectedTrans(kept', z, xr, e.a);
        ConnectedTrans(kept', z, e.a, e.b);
        ConnectedTrans(kept', z, e.b, yr);
      }
    }
  }

  /** The same link keeps the ends of every edge, `e` included, in one set. */
  lemma LinkKeepsOneSet(parent: map<Coord, Option<Coord>>, level: map<Coord, nat>,
                        es: seq<Edge>, e: Edge, xr: Coord, yr: Coord)
    requires Leveled(parent, level) && e.a in parent && e.b in parent
    requires xr == Find(parent, level, e.a) && yr == Find(parent, level, e.b) && xr != yr
    requires EdgesInOneSet(parent, level, es)
    ensures Leveled(parent[xr := Some(yr)], LinkLevels(parent, level, xr, yr))
    ensures EdgesInOneSet(parent[xr := Some(yr)], LinkLevels(parent, level, xr, yr), es + [e])
  {
    var parent', level' := parent[xr := Some(yr)], LinkLevels(parent, level, xr, yr);
    LinkKeepsLeveled(parent, level, xr, yr);
    forall f | f in es + [e]
      ensures f.a in parent' && f.b in parent' && Find(parent', level', f.a) == Find(parent', level', f.b)
    {
      FindAfterLink(parent, level, xr, yr, level', f.a);
      FindAfterLink(parent, level, xr, yr, level', f.b);
      if f != e {
        assert f in es;
      }
    }
  }

  /** The same link removes exactly the root `xr`. */
  lemma LinkRemovesRoot(parent: map<Coord, Option<Coord>>, xr: Coord, yr: Coord)
    requires xr in parent && parent[xr] == None
    ensures xr in Roots(parent)
    ensures Roots(parent[xr := Some(yr)]) == Roots(parent) - {xr}
    ensures |Roots(parent[xr := Some(yr)])| == |Roots(parent)| - 1
  {
  }

  /** When every element has the same representative `r`, `r` is the only root. */
  lemma OneRoot(parent: map<Coord, Option<Coord>>, level: map<Coord, nat>, r: Coord)
    requires Leveled(parent, level) && r in parent
    requires forall z :: z in parent ==> Find(parent, level, z) == r
    ensures Roots(parent) == {r}
  {
    forall z | z in Roots(parent) ensures z == r {
      assert Find(parent, level, z) == z;
    }
    assert Find(parent, level, r) == r;
  }

  /** Fresh singleton sets for the given elements. */
  lemma SingletonsInvariants(parent: map<Coord, Option<Coord>>, level: map<Coord, nat>)
    requires Leveled(parent, level)
    requires forall z :: z in parent ==> parent[z] == None
    ensures RootsLinked(parent, level, []) && EdgesInOneSet(parent, level, [])
    ensures Roots(parent) == parent.Keys
  {
    forall z | z in parent ensures Connected([], z, Find(parent, level, z)) {
      ConnectedRefl([], z);
    }
  }

  /**
   * What the finished scan gives: the kept edges connect exactly what the
   * candidate edges connect, there is at least one root left, and only one
   * when the candidate edges connect all the nodes.
   */
  lemma ScanResult(parent: map<Coord, Option<Coord>>, level: map<Coord, nat>,
                   nodes: seq<Coord>, edges: seq<Edge>, tri: seq<Edge>, chemin: seq<Edge>)
    requires Leveled(parent, level) && parent.Keys == set z | z in nodes
    requires forall e :: e in tri <==> e in edges
    requires forall e :: e in chemin ==> e in tri
    requires RootsLinked(parent, level, chemin) && EdgesInOneSet(parent, level, chemin)
    requires EdgesInOneSet(parent, level, tri)
    ensures forall u, v :: u in nodes && v in nodes ==> (Connected(chemin, u, v) <==> Connected(edges, u, v))
    ensures nodes != [] ==> |Roots(parent)| >= 1
    ensures nodes != [] && (forall u, v :: u in nodes && v in nodes ==> Connected(edges, u, v)) ==>
              |Roots(parent)| == 1
  {
    forall u, v | u in nodes && v in nodes
      ensures Connected(chemin, u, v) <==> Connected(edges, u, v)
    {
      if Connected(chemin, u, v) {
        ConnectedMono(chemin, edges, u, v);
      }
      if Connected(edges, u, v) {
        ConnectedMono(edges, tri, u, v);
        var p :| IsPath(tri, p, u, v);
        PathStaysInSet(parent, level, tri, p, u, v);
        SameSetIffConnected(parent, level, chemin, u, v);
      }
    }
    if nodes != [] {
      var r := Find(parent, level, nodes[0]);
      assert r in Roots(parent);
      if forall u, v :: u in nodes && v in nodes ==> Connected(edges, u, v) {
        forall z | z in parent ensures Find(parent, level, z) == r {
          assert Connected(chemin, nodes[0], z);
          SameSetIffConnected(parent, level, chemin, nodes[0], z);
        }
        OneRoot(parent, level, r);
      }
    }
  }

  /**
   * The state of the scan after the first `i` sorted edges: `chemin` is the
   * greedy forest of those edges, every node is connected by `chemin` to
   * its representative, the ends of every kept and every scanned edge share
   * a representative, and each kept edge has removed one root.
   */
  ghost predicate ScanInv(parent: map<Coord, Option<Coord>>, level: map<Coord, nat>, ns: set<Coord>,
                          tri: seq<Edge>, i: nat, chemin: seq<Edge>)
  {
    && Leveled(parent, level) && parent.Keys == ns && i <= |tri|
    && chemin == Forest(tri[..i])
    && RootsLinked(parent, level, chemin) && EdgesInOneSet(parent, level, chemin)
    && EdgesInOneSet(parent, level, tri[..i])
    && |Roots(parent)| + |chemin| == |ns|
  }

  /** Accepting edge `i`, whose ends have the different roots `xr` and `yr`, keeps the scan state. */
  lemma ScanAccept(parent: map<Coord, Option<Coord>>, level: map<Coord, nat>, ns: set<Coord>,
                   tri: seq<Edge>, i: nat, chemin: seq<Edge>, xr: Coord, yr: Coord)
    requires ScanInv(parent, level, ns, tri, i, chemin) && i < |tri|
    requires tri[i].a in ns && tri[i].b in ns
    requires xr == Find(parent, level, tri[i].a) && yr == Find(parent, level, tri[i].b) && xr != yr
    ensures ScanInv(parent[xr := Some(yr)], LinkLevels(parent, level, xr, yr), ns, tri, i + 1, chemin + [tri[i]])
  {
    var e := tri[i];
    assert tri[..i + 1] == tri[..i] + [e];
    assert tri[..i + 1][..i] == tri[..i];
    SameSetIffConnected(parent, level, chemin, e.a, e.b);
    LinkKeepsRootsLinked(parent, level, chemin, e, xr, yr);
    LinkKeepsOneSet(parent, level, chemin, e, xr, yr);
    LinkKeepsOneSet(parent, level, tri[..i], e, xr, yr);
    LinkRemovesRoot(parent, xr, yr);
  }

  /** Rejecting edge `i`, whose ends share a root, keeps the scan state. */
  lemma ScanReject(parent: map<Coord, Option<Coord>>, level: map<Coord, nat>, ns: set<Coord>,
                   tri: seq<Edge>, i: nat, chemin: seq<Edge>)
    requires ScanInv(parent, level, ns, tri, i, chemin) && i < |tri|
    requires tri[i].a in ns && tri[i].b in ns
    requires Find(parent, level, tri[i].a) == Find(parent, level, tri[i].b)
    ensures ScanInv(parent, level, ns, tri, i + 1, chemin)
  {
    var e := tri[i];
    assert tri[..i + 1] == tri[..i] + [e];
    assert tri[..i + 1][..i] == tri[..i];
    SameSetIffConnected(parent, level, chemin, e.a, e.b);
  }

  /** The first loop of kruskal: a fresh union-find with every node in a set of its own. */
  method MakeSets(nodes: seq<Coord>) returns (uf: UnionFind<Coord>)
    ensures fresh(uf) && uf.Valid()
    ensures uf.parent == map z | z in nodes :: None
  {
    uf := new UnionFind<Coord>();
    for j := 0 to |nodes|
      invariant uf.Valid()
      invariant uf.parent == map z | z in nodes[..j] :: None
    {
      assert nodes[..j + 1] == nodes[..j] + [nodes[j]];
      uf.MakeSet(nodes[j]);
    }
    assert nodes[..|nodes|] == nodes;
  }

  /**
   * The second loop of kruskal: scan the sorted edges, appending an edge and
   * merging its two sets exactly when its ends have different roots.
   */
  method Scan(uf: UnionFind<Coord>, ghost ns: set<Coord>, tri: seq<Edge>) returns (chemin: seq<Edge>)
    requires uf.Valid() && ScanInv(uf.parent, uf.level, ns, tri, 0, [])
    requires forall e :: e in tri ==> e.a in ns && e.b in ns
    modifies uf
    ensures uf.Valid() && ScanInv(uf.parent, uf.level, ns, tri, |tri|, chemin)
  {
    chemin := [];
    for i := 0 to |tri|
      invariant uf.Valid()
      invariant ScanInv(uf.parent, uf.level, ns, tri, i, chemin)
    {
      var e := tri[i];
      var ra, rb := Find(uf.parent, uf.level, e.a), Find(uf.parent, uf.level, e.b);
      if ra != rb {
        ScanAccept(uf.parent, uf.level, ns, tri, i, chemin, ra, rb);
        chemin := chemin + [e];
        uf.Union(e.a, e.b);
      } else {
        ScanReject(uf.parent, uf.level, ns, tri, i, chemin);
      }
    }
  }

  /**
   * kruskal: every node becomes a singleton set, then the edges are scanned
   * in sorted order and an edge is appended to `chemin` (and its sets merged)
   * exactly when its ends have different representatives.
   */
  method Kruskal(nodes: seq<Coord>, edges: seq<Edge>) returns (chemin: seq<Edge>)
    requires forall e :: e in edges ==> e.a in nodes && e.b in nodes
    ensures chemin == Forest(SortByWeight(edges))
    ensures forall u, v :: u in nodes && v in nodes ==> (Connected(chemin, u, v) <==> Connected(edges, u, v))
    ensures nodes != [] ==> |chemin| <= |set z | z in nodes| - 1
    ensures nodes != [] && (forall u, v :: u in nodes && v in nodes ==> Connected(edges, u, v)) ==>
              |chemin| == |set z | z in nodes| - 1
  {
    var uf := MakeSets(nodes);
    ghost var NS := set z | z in nodes;
    SingletonsInvariants(uf.parent, uf.level);

    var tri := SortByWeight(edges);
    chemin := Scan(uf, NS, tri);
    assert tri[..|tri|] == tri;
    ForestIsSubseq(tri);
    ScanResult(uf.parent, uf.level, nodes, edges, tri, chemin);
  }
}
