/**
 * Shortest routes over the hex grid: Dijkstra's algorithm with a linear scan
 * for the nearest unsettled node, the reconstruction of one route from the
 * predecessor map, and the routing between every pair of settlements.
 *
 * Distances are reals with an explicit infinity; floating-point rounding is
 * not modelled.  A step from `s` to a neighbour `i` costs 1, or, with the
 * terrain constraints, is refused when either end is water and otherwise
 * costs a terrain penalty plus a climbing term.
 */
module ShortestPaths {
  import opened Wrappers
  import opened Seqs
  import opened Hex
  import opened Settlements

  /** A tentative distance: `float('inf')` or a finite value. */
  datatype Dist = Inf | Fin(value: real)

  /** `a <= b` on Python floats, infinity included. */
  predicate Le(a: Dist, b: Dist) {
    b.Inf? || (a.Fin? && a.value <= b.value)
  }

  /** `a < b` on Python floats, infinity included. */
  predicate Lt(a: Dist, b: Dist) {
    a.Fin? && (b.Inf? || a.value < b.value)
  }

  /** `a + w`; infinity absorbs any finite weight. */
  function Plus(a: Dist, w: real): Dist {
    if a.Inf? then Inf else Fin(a.value + w)
  }

  /** The terrain penalty for entering a cell. */
  function Penalty(t: Terrain): real {
    if t == Snow then 2.5 else if t == Mountain then 1.5 else 1.0
  }

  /** The climbing factor: 1 going down, 1.5 on the level or up. */
  function Climb(from: int, to: int): real {
    if to < from then 1.0 else 1.5
  }

  /** The constrained weight of the step from `from` into `to`: penalty plus ((dalt / 10)^2 * climb) / 200. */
  function StepWeight(from: Node, to: Node): (w: real)
    ensures w >= Penalty(to.terrain) >= 1.0
  {
    var delta := (to.altitude - from.altitude) as real / 10.0;
    SquareNonNegative(delta);
    Penalty(to.terrain) + delta * delta * Climb(from.altitude, to.altitude) / 200.0
  }

  lemma SquareNonNegative(x: real)
    ensures x * x >= 0.0
  {
    if x < 0.0 {
      assert x * x == (-x) * (-x);
    }
  }

  /**
   * The step from `s` to `i` is relaxed at all: `i` is a neighbour of `s`
   * and, with the constraints, neither end is water.
   */
  predicate Usable(nodes: map<Coord, Node>, constrained: bool, s: Coord, i: Coord) {
    && s in nodes && i in nodes && i in nodes[s].neighbors
    && (constrained ==> nodes[s].terrain != Water && nodes[i].terrain != Water)
  }

  /** The weight of a step: at least 1, and constant 1 without the constraints. */
  function Weight(nodes: map<Coord, Node>, constrained: bool, s: Coord, i: Coord): (w: real)
    requires s in nodes && i in nodes
    ensures w >= 1.0 && (!constrained ==> w == 1.0)
  {
    if constrained then StepWeight(nodes[s], nodes[i]) else 1.0
  }

  // ---------------------------------------------------------------------
  // Walks and their costs: the reference the algorithm is proved against.

  /** `p` is a walk of usable steps through cells of the table. */
  ghost predicate IsWalk(nodes: map<Coord, Node>, constrained: bool, p: seq<Coord>) {
    && |p| >= 1
    && (forall k :: 0 <= k < |p| ==> p[k] in nodes)
    && forall k :: 0 <= k < |p| - 1 ==> Usable(nodes, constrained, p[k], p[k + 1])
  }

  lemma WalkPrefix(nodes: map<Coord, Node>, constrained: bool, p: seq<Coord>, n: nat)
    requires IsWalk(nodes, constrained, p) && 1 <= n <= |p|
    ensures IsWalk(nodes, constrained, p[..n])
  {
    forall k | 0 <= k < n - 1 ensures Usable(nodes, constrained, p[..n][k], p[..n][k + 1]) {
      assert p[..n][k] == p[k] && p[..n][k + 1] == p[k + 1];
    }
  }

  /** The sum of the step weights along a walk. */
  ghost function WalkCost(nodes: map<Coord, Node>, constrained: bool, p: seq<Coord>): real
    requires IsWalk(nodes, constrained, p)
    decreases |p|
  {
    if |p| == 1 then 0.0
    else
      WalkPrefix(nodes, constrained, p, |p| - 1);
      WalkCost(nodes, constrained, p[..|p| - 1]) + Weight(nodes, constrained, p[|p| - 2], p[|p| - 1])
  }

  /** `p` walks from `a` to `b`. */
  ghost predicate Reaches(nodes: map<Coord, Node>, constrained: bool, a: Coord, p: seq<Coord>, b: Coord) {
    IsWalk(nodes, constrained, p) && p[0] == a && p[|p| - 1] == b
  }

  ghost predicate Reachable(nodes: map<Coord, Node>, constrained: bool, a: Coord, b: Coord) {
    exists p :: Reaches(nodes, constrained, a, p, b)
  }

  /**
   * `dv` is the distance from `a` to `v`: no walk from `a` to `v` costs less,
   * and a finite `dv` is the cost of one of them (so `Inf` means unreachable).
   */
  ghost predicate IsDistance(nodes: map<Coord, Node>, constrained: bool, a: Coord, v: Coord, dv: Dist) {
    && (forall p :: Reaches(nodes, constrained, a, p, v) ==> Le(dv, Fin(WalkCost(nodes, constrained, p))))
    && (dv.Fin? ==> exists p :: Reaches(nodes, constrained, a, p, v) && WalkCost(nodes, constrained, p) == dv.value)
  }

  /** No walk between the same two cells is cheaper than `p`. */
  ghost predicate IsShortestWalk(nodes: map<Coord, Node>, constrained: bool, p: seq<Coord>) {
    && IsWalk(nodes, constrained, p)
    && forall q :: Reaches(nodes, constrained, p[0], q, p[|p| - 1]) ==>
         WalkCost(nodes, constrained, p) <= WalkCost(nodes, constrained, q)
  }

  // ---------------------------------------------------------------------
  // One round of the main loop.

  /**
   * The scan over `d.items()` (the table's keys in order) for an unsettled
   * node of least tentative distance; since the test is `<=`, the last such
   * node in scan order is chosen, and infinite distances qualify too.
   */
  method SelectMin(keys: seq<Coord>, d: map<Coord, Dist>, settled: seq<Coord>) returns (s: Coord)
    requires forall c :: c in keys ==> c in d
    requires exists c :: c in keys && c !in settled
    ensures s in keys && s !in settled
    ensures forall c :: c in keys && c !in settled ==> Le(d[s], d[c])
    ensures exists k :: 0 <= k < |keys| && keys[k] == s &&
              forall j :: k < j < |keys| && keys[j] !in settled ==> Lt(d[s], d[keys[j]])
  {
    var mini := Inf;
    s := keys[0];
    ghost var found := -1;
    for i := 0 to |keys|
      invariant -1 <= found < i
      invariant found >= 0 ==> keys[found] == s && s !in settled && mini == d[s]
      invariant found < 0 ==> mini == Inf && forall j :: 0 <= j < i ==> keys[j] in settled
      invariant forall j :: 0 <= j < i && keys[j] !in settled ==> Le(mini, d[keys[j]])
      invariant forall j :: found < j < i && keys[j] !in settled ==> Lt(mini, d[keys[j]])
    {
      var cle := keys[i];
      if cle !in settled && Le(d[cle], mini) {
        mini := d[cle];
        s := cle;
        found := i;
      }
    }
  }

  /** The effect of relaxing the steps out of `s` on the entry of `v`. */
  ghost predicate RelaxedAt(nodes: map<Coord, Node>, constrained: bool, s: Coord,
                            d: map<Coord, Dist>, pred: map<Coord, Option<Coord>>,
                            d': map<Coord, Dist>, pred': map<Coord, Option<Coord>>, v: Coord)
    requires s in d && v in d && v in pred && v in d' && v in pred'
  {
    if Usable(nodes, constrained, s, v) && Lt(Plus(d[s], Weight(nodes, constrained, s, v)), d[v])
    then d'[v] == Plus(d[s], Weight(nodes, constrained, s, v)) && pred'[v] == Some(s)
    else d'[v] == d[v] && pred'[v] == pred[v]
  }

  ghost predicate Relaxed(nodes: map<Coord, Node>, constrained: bool, s: Coord,
                          d: map<Coord, Dist>, pred: map<Coord, Option<Coord>>,
                          d': map<Coord, Dist>, pred': map<Coord, Option<Coord>>)
  {
    && s in d && d'.Keys == d.Keys && pred.Keys == d.Keys && pred'.Keys == d.Keys
    && forall v :: v in d ==> RelaxedAt(nodes, constrained, s, d, pred, d', pred', v)
  }

  /** The neighbours in `done` have been relaxed; every other entry is as it was. */
  ghost predicate RelaxedOn(nodes: map<Coord, Node>, constrained: bool, s: Coord,
                            d: map<Coord, Dist>, pred: map<Coord, Option<Coord>>,
                            d': map<Coord, Dist>, pred': map<Coord, Option<Coord>>, done: seq<Coord>)
  {
    && s in d && d'.Keys == d.Keys && pred.Keys == d.Keys && pred'.Keys == d.Keys && d'[s] == d[s]
    && forall v :: v in d ==>
         if v in done then RelaxedAt(nodes, constrained, s, d, pred, d', pred', v)
         else d'[v] == d[v] && pred'[v] == pred[v]
  }

  /** Relaxing one more neighbour `i`, not relaxed before. */
  lemma RelaxOne(nodes: map<Coord, Node>, constrained: bool, s: Coord,
                 d: map<Coord, Dist>, pred: map<Coord, Option<Coord>>,
                 d1: map<Coord, Dist>, pred1: map<Coord, Option<Coord>>, done: seq<Coord>, i: Coord,
                 d2: map<Coord, Dist>, pred2: map<Coord, Option<Coord>>)
    requires RelaxedOn(nodes, constrained, s, d, pred, d1, pred1, done)
    requires i in d && i !in done && i != s && s in nodes && i in nodes
    requires Usable(nodes, constrained, s, i) && Lt(Plus(d[s], Weight(nodes, constrained, s, i)), d[i]) ==>
               d2 == d1[i := Plus(d[s], Weight(nodes, constrained, s, i))] && pred2 == pred1[i := Some(s)]
    requires !(Usable(nodes, constrained, s, i) && Lt(Plus(d[s], Weight(nodes, constrained, s, i)), d[i])) ==>
               d2 == d1 && pred2 == pred1
    ensures RelaxedOn(nodes, constrained, s, d, pred, d2, pred2, done + [i])
  {
    forall v | v in d
      ensures if v in done + [i] then RelaxedAt(nodes, constrained, s, d, pred, d2, pred2, v)
              else d2[v] == d[v] && pred2[v] == pred[v]
    {
      if v != i {
        assert v in done + [i] <==> v in done;
      }
    }
  }

  /**
   * The loop over `get_neighbors(s)`: each neighbour whose distance improves
   * through `s` gets the new distance and `s` as predecessor.
   */
  method Relax(nodes: map<Coord, Node>, constrained: bool, s: Coord,
               d: map<Coord, Dist>, pred: map<Coord, Option<Coord>>)
    returns (d': map<Coord, Dist>, pred': map<Coord, Option<Coord>>)
    requires s in nodes && d.Keys == nodes.Keys && pred.Keys == nodes.Keys
    requires Distinct(nodes[s].neighbors) && s !in nodes[s].neighbors
    requires forall n :: n in nodes[s].neighbors ==> n in nodes
    ensures Relaxed(nodes, constrained, s, d, pred, d', pred')
  {
    var fils := nodes[s].neighbors;
    d', pred' := d, pred;
    for k := 0 to |fils|
      invariant RelaxedOn(nodes, constrained, s, d, pred, d', pred', fils[..k])
    {
      var i := fils[k];
      assert fils[..k + 1] == fils[..k] + [i];
      assert i !in fils[..k] by {
        forall j | 0 <= j < k ensures fils[..k][j] != i {
          assert fils[..k][j] == fils[j];
        }
      }
      ghost var d0, pred0 := d', pred';
      if constrained {
        if nodes[s].terrain != Water && nodes[i].terrain != Water {
          var poid := StepWeight(nodes[s], nodes[i]);
          if Lt(Plus(d'[s], poid), d'[i]) {
            d' := d'[i := Plus(d'[s], poid)];
            pred' := pred'[i := Some(s)];
          }
        }
      } else {
        if Lt(Plus(d'[s], 1.0), d'[i]) {
          d' := d'[i := Plus(d'[s], 1.0)];
          pred' := pred'[i := Some(s)];
        }
      }
      RelaxOne(nodes, constrained, s, d, pred, d0, pred0, fils[..k], i, d', pred');
    }
    assert fils[..|fils|] == fils;
    forall v | v in d ensures RelaxedAt(nodes, constrained, s, d, pred, d', pred', v) {
      if v !in fils {
        assert !Usable(nodes, constrained, s, v);
      }
    }
  }

  // ---------------------------------------------------------------------
  // The loop invariant of dijkstra, piece by piece.

  /** `d` and `pred` cover the table; the source has distance 0 and no predecessor; distances are not negative. */
  ghost predicate Tables(nodes: map<Coord, Node>, s0: Coord, d: map<Coord, Dist>, pred: map<Coord, Option<Coord>>) {
    && d.Keys == nodes.Keys && pred.Keys == nodes.Keys
    && s0 in nodes && d[s0] == Fin(0.0) && pred[s0] == None
    && forall v :: v in d && d[v].Fin? ==> d[v].value >= 0.0
  }

  /** The settled list `E` and the unsettled list `F` split the table. */
  ghost predicate Partition(nodes: map<Coord, Node>, settled: seq<Coord>, unsettled: seq<Coord>) {
    && Distinct(settled) && Distinct(unsettled)
    && (forall x :: x in settled ==> x in nodes && x !in unsettled)
    && (forall x :: x in unsettled ==> x in nodes)
    && forall x :: x in nodes ==> x in settled || x in unsettled
  }

  /** `u -> v` is a usable step that accounts exactly for `v`'s distance. */
  ghost predicate Tight(nodes: map<Coord, Node>, constrained: bool, d: map<Coord, Dist>, u: Coord, v: Coord) {
    && Usable(nodes, constrained, u, v) && u in d && v in d && d[u].Fin?
    && d[v] == Fin(d[u].value + Weight(nodes, constrained, u, v))
  }

  /** Every predecessor link is tight, and every finite distance other than the source's has a link. */
  ghost predicate PredLinks(nodes: map<Coord, Node>, constrained: bool, s0: Coord,
                            d: map<Coord, Dist>, pred: map<Coord, Option<Coord>>) {
    && (forall v :: v in pred && pred[v].Some? ==> Tight(nodes, constrained, d, pred[v].value, v))
    && forall v :: v in d && d[v].Fin? && v != s0 ==> v in pred && pred[v].Some?
  }

  ghost predicate PredSettled(pred: map<Coord, Option<Coord>>, settled: seq<Coord>) {
    forall v :: v in pred && pred[v].Some? ==> pred[v].value in settled
  }

  /** No settled node is farther than an unsettled one. */
  ghost predicate Greedy(d: map<Coord, Dist>, settled: seq<Coord>, unsettled: seq<Coord>) {
    forall u, v :: u in settled && v in unsettled && u in d && v in d ==> Le(d[u], d[v])
  }

  /** Nodes were settled in non-decreasing order of distance. */
  ghost predicate SettledInOrder(d: map<Coord, Dist>, settled: seq<Coord>) {
    forall i, j :: 0 <= i < j < |settled| && settled[i] in d && settled[j] in d ==> Le(d[settled[i]], d[settled[j]])
  }

  /** Every step out of a settled node has been relaxed. */
  ghost predicate StepsRelaxed(nodes: map<Coord, Node>, constrained: bool, d: map<Coord, Dist>, settled: seq<Coord>) {
    forall u, v :: u in settled && Usable(nodes, constrained, u, v) && u in d && v in d ==>
      Le(d[v], Plus(d[u], Weight(nodes, constrained, u, v)))
  }

  ghost predicate LoopInv(nodes: map<Coord, Node>, constrained: bool, s0: Coord,
                          d: map<Coord, Dist>, pred: map<Coord, Option<Coord>>,
                          settled: seq<Coord>, unsettled: seq<Coord>) {
    && Tables(nodes, s0, d, pred) && Partition(nodes, settled, unsettled)
    && PredLinks(nodes, constrained, s0, d, pred) && PredSettled(pred, settled)
    && Greedy(d, settled, unsettled) && SettledInOrder(d, settled)
    && StepsRelaxed(nodes, constrained, d, settled)
  }

  /** The state before the first round. */
  lemma InitialInv(nodes: map<Coord, Node>, keys: seq<Coord>, constrained: bool, s0: Coord,
                   d: map<Coord, Dist>, pred: map<Coord, Option<Coord>>)
    requires WellFormed(nodes, keys) && s0 in nodes
    requires d.Keys == nodes.Keys && pred.Keys == nodes.Keys
    requires d[s0] == Fin(0.0) && forall v :: v in d && v != s0 ==> d[v] == Inf
    requires forall v :: v in pred ==> pred[v] == None
    ensures LoopInv(nodes, constrained, s0, d, pred, [], keys)
  {
  }

  /** The entries of the nodes in `kept` are the same in both states. */
  ghost predicate Kept(d: map<Coord, Dist>, pred: map<Coord, Option<Coord>>,
                       d': map<Coord, Dist>, pred': map<Coord, Option<Coord>>, kept: seq<Coord>) {
    forall u :: u in kept ==> u in d && u in d' && u in pred && u in pred' && d'[u] == d[u] && pred'[u] == pred[u]
  }

  /** No distance went up. */
  ghost predicate Lowered(d: map<Coord, Dist>, d': map<Coord, Dist>) {
    forall v :: v in d ==> v in d' && Le(d'[v], d[v])
  }

  /**
   * Settling the nearest node `s` leaves the settled distances as they are
   * (every step weighs at least 1) and only ever lowers the others.
   */
  lemma RoundKeepsSettled(nodes: map<Coord, Node>, constrained: bool, s0: Coord,
                          d: map<Coord, Dist>, pred: map<Coord, Option<Coord>>,
                          settled: seq<Coord>, unsettled: seq<Coord>, s: Coord,
                          d': map<Coord, Dist>, pred': map<Coord, Option<Coord>>)
    requires Tables(nodes, s0, d, pred) && Partition(nodes, settled, unsettled) && Greedy(d, settled, unsettled)
    requires s in unsettled
    requires Relaxed(nodes, constrained, s, d, pred, d', pred')
    ensures Kept(d, pred, d', pred', settled + [s]) && Kept(d, pred, d', pred', [s0])
    ensures Lowered(d, d')
  {
    forall u | u in settled + [s] || u == s0 ensures d'[u] == d[u] && pred'[u] == pred[u] {
      assert RelaxedAt(nodes, constrained, s, d, pred, d', pred', u);
      if Usable(nodes, constrained, s, u) {
        if u in settled {
          assert Le(d[u], d[s]);
        }
      }
    }
    forall v | v in d ensures v in d' && Le(d'[v], d[v]) {
      assert RelaxedAt(nodes, constrained, s, d, pred, d', pred', v);
    }
  }

  lemma RoundTables(nodes: map<Coord, Node>, constrained: bool, s0: Coord,
                    d: map<Coord, Dist>, pred: map<Coord, Option<Coord>>, s: Coord,
                    d': map<Coord, Dist>, pred': map<Coord, Option<Coord>>)
    requires Tables(nodes, s0, d, pred) && Relaxed(nodes, constrained, s, d, pred, d', pred')
    requires Kept(d, pred, d', pred', [s0])
    ensures Tables(nodes, s0, d', pred')
  {
    assert s0 in [s0];
    forall v | v in d' && d'[v].Fin? ensures d'[v].value >= 0.0 {
      assert RelaxedAt(nodes, constrained, s, d, pred, d', pred', v);
      if Usable(nodes, constrained, s, v) {
      }
    }
  }

  lemma RoundPartition(nodes: map<Coord, Node>, settled: seq<Coord>, unsettled: seq<Coord>, s: Coord)
    requires Partition(nodes, settled, unsettled) && s in unsettled
    ensures Partition(nodes, settled + [s], RemoveFirst(unsettled, s))
  {
    var settled' := settled + [s];
    assert Distinct(settled') by {
      forall i, j | 0 <= i < j < |settled'| ensures settled'[i] != settled'[j] {
        if j == |settled| {
          assert settled'[i] in settled;
        } else {
          assert settled'[i] == settled[i] && settled'[j] == settled[j];
        }
      }
    }
  }

  /** After a round, the link of `v` is tight and leads to a settled node. */
  lemma LinkAt(nodes: map<Coord, Node>, constrained: bool, s0: Coord,
               d: map<Coord, Dist>, pred: map<Coord, Option<Coord>>, settled: seq<Coord>, s: Coord,
               d': map<Coord, Dist>, pred': map<Coord, Option<Coord>>, v: Coord)
    requires PredLinks(nodes, constrained, s0, d, pred) && PredSettled(pred, settled)
    requires Relaxed(nodes, constrained, s, d, pred, d', pred')
    requires Kept(d, pred, d', pred', settled + [s])
    requires v in pred' && pred'[v].Some?
    ensures Tight(nodes, constrained, d', pred'[v].value, v) && pred'[v].value in settled + [s]
  {
    assert s in settled + [s];
    assert RelaxedAt(nodes, constrained, s, d, pred, d', pred', v);
    if !(Usable(nodes, constrained, s, v) && Lt(Plus(d[s], Weight(nodes, constrained, s, v)), d[v])) {
      var u := pred[v].value;
      assert u in settled && u in settled + [s];
      assert Tight(nodes, constrained, d, u, v);
    }
  }

  lemma RoundLinks(nodes: map<Coord, Node>, constrained: bool, s0: Coord,
                   d: map<Coord, Dist>, pred: map<Coord, Option<Coord>>, settled: seq<Coord>, s: Coord,
                   d': map<Coord, Dist>, pred': map<Coord, Option<Coord>>)
    requires PredLinks(nodes, constrained, s0, d, pred) && PredSettled(pred, settled)
    requires Relaxed(nodes, constrained, s, d, pred, d', pred')
    requires Kept(d, pred, d', pred', settled + [s])
    ensures PredLinks(nodes, constrained, s0, d', pred') && PredSettled(pred', settled + [s])
  {
    forall v | v in pred' && pred'[v].Some?
      ensures Tight(nodes, constrained, d', pred'[v].value, v) && pred'[v].value in settled + [s]
    {
      LinkAt(nodes, constrained, s0, d, pred, settled, s, d', pred', v);
    }
    forall v | v in d' && d'[v].Fin? && v != s0 ensures v in pred' && pred'[v].Some? {
      assert RelaxedAt(nodes, constrained, s, d, pred, d', pred', v);
    }
  }

  lemma RoundGreedy(nodes: map<Coord, Node>, constrained: bool,
                    d: map<Coord, Dist>, pred: map<Coord, Option<Coord>>,
                    settled: seq<Coord>, unsettled: seq<Coord>, s: Coord,
                    d': map<Coord, Dist>, pred': map<Coord, Option<Coord>>)
    requires Greedy(d, settled, unsettled) && forall v :: v in unsettled ==> v in d
    requires s in unsettled && forall v :: v in unsettled ==> Le(d[s], d[v])
    requires Relaxed(nodes, constrained, s, d, pred, d', pred')
    requires Kept(d, pred, d', pred', settled + [s])
    ensures Greedy(d', settled + [s], RemoveFirst(unsettled, s))
    ensures SettledInOrder(d, settled) ==> SettledInOrder(d', settled + [s])
  {
    var settled', unsettled' := settled + [s], RemoveFirst(unsettled, s);
    forall u, v | u in settled' && v in unsettled' && u in d' && v in d' ensures Le(d'[u], d'[v]) {
      assert RelaxedAt(nodes, constrained, s, d, pred, d', pred', v);
      assert v in unsettled;
      assert Le(d[u], d[s]);
      if Usable(nodes, constrained, s, v) {
      }
    }
    if SettledInOrder(d, settled) {
      forall i, j | 0 <= i < j < |settled'| && settled'[i] in d' && settled'[j] in d'
        ensures Le(d'[settled'[i]], d'[settled'[j]])
      {
        assert settled'[i] in settled';
        if j == |settled| {
          assert settled'[i] in settled;
          assert Le(d[settled'[i]], d[s]);
        } else {
          assert settled'[i] == settled[i] && settled'[j] == settled[j];
          assert settled'[j] in settled';
        }
      }
    }
  }

  lemma RoundSteps(nodes: map<Coord, Node>, constrained: bool,
                   d: map<Coord, Dist>, pred: map<Coord, Option<Coord>>, settled: seq<Coord>, s: Coord,
                   d': map<Coord, Dist>, pred': map<Coord, Option<Coord>>)
    requires StepsRelaxed(nodes, constrained, d, settled)
    requires Relaxed(nodes, constrained, s, d, pred, d', pred')
    requires Kept(d, pred, d', pred', settled + [s]) && Lowered(d, d')
    ensures StepsRelaxed(nodes, constrained, d', settled + [s])
  {
    forall u, v | u in settled + [s] && Usable(nodes, constrained, u, v) && u in d' && v in d'
      ensures Le(d'[v], Plus(d'[u], Weight(nodes, constrained, u, v)))
    {
      if u == s {
        assert RelaxedAt(nodes, constrained, s, d, pred, d', pred', v);
      } else {
        assert u in settled;
        assert Le(d'[v], d[v]);
      }
    }
  }

  /** A round keeps the loop invariant. */
  lemma RoundKeepsInv(nodes: map<Coord, Node>, constrained: bool, s0: Coord,
                      d: map<Coord, Dist>, pred: map<Coord, Option<Coord>>,
                      settled: seq<Coord>, unsettled: seq<Coord>, s: Coord,
                      d': map<Coord, Dist>, pred': map<Coord, Option<Coord>>)
    requires LoopInv(nodes, constrained, s0, d, pred, settled, unsettled)
    requires s in unsettled && forall v :: v in unsettled ==> Le(d[s], d[v])
    requires Relaxed(nodes, constrained, s, d, pred, d', pred')
    ensures LoopInv(nodes, constrained, s0, d', pred', settled + [s], RemoveFirst(unsettled, s))
  {
    RoundKeepsSettled(nodes, constrained, s0, d, pred, settled, unsettled, s, d', pred');
    RoundTables(nodes, constrained, s0, d, pred, s, d', pred');
    RoundPartition(nodes, settled, unsettled, s);
    RoundLinks(nodes, constrained, s0, d, pred, settled, s, d', pred');
    RoundGreedy(nodes, constrained, d, pred, settled, unsettled, s, d', pred');
    RoundSteps(nodes, constrained, d, pred, settled, s, d', pred');
  }

  // ---------------------------------------------------------------------
  // Ties: which node is settled first, and which predecessor is kept.

  /** Of two settled nodes at the same distance, the one later in key order was settled first. */
  ghost predicate SettledTies(keys: seq<Coord>, d: map<Coord, Dist>, settled: seq<Coord>) {
    forall i, j :: 0 <= i < j < |settled| && settled[i] in keys && settled[j] in keys &&
                   settled[i] in d && settled[j] in d && d[settled[i]] == d[settled[j]] ==>
      IndexOf(keys, settled[j]) < IndexOf(keys, settled[i])
  }

  /** An unsettled node at the distance of a settled one comes earlier in key order. */
  ghost predicate TiesAhead(keys: seq<Coord>, d: map<Coord, Dist>, settled: seq<Coord>, unsettled: seq<Coord>) {
    forall u, v :: u in settled && v in unsettled && u in keys && v in keys && u in d && v in d && d[u] == d[v] ==>
      IndexOf(keys, v) < IndexOf(keys, u)
  }

  /** A predecessor is the first settled node with a tight step to its node: later ties do not replace it. */
  ghost predicate PredFirst(nodes: map<Coord, Node>, constrained: bool, d: map<Coord, Dist>,
                            pred: map<Coord, Option<Coord>>, settled: seq<Coord>) {
    forall v, j :: v in pred && 0 <= j < |settled| && pred[v] == Some(settled[j]) ==>
      forall i :: 0 <= i < j ==> !Tight(nodes, constrained, d, settled[i], v)
  }

  ghost predicate TieInv(nodes: map<Coord, Node>, keys: seq<Coord>, constrained: bool, d: map<Coord, Dist>,
                         pred: map<Coord, Option<Coord>>, settled: seq<Coord>, unsettled: seq<Coord>) {
    SettledTies(keys, d, settled) && TiesAhead(keys, d, settled, unsettled) && PredFirst(nodes, constrained, d, pred, settled)
  }

  /** The scan's choice `s`: no unsettled node after it in key order is as near. */
  ghost predicate LastOfNearest(keys: seq<Coord>, d: map<Coord, Dist>, settled: seq<Coord>, s: Coord)
    requires forall c :: c in keys ==> c in d
  {
    exists k :: 0 <= k < |keys| && keys[k] == s && forall j :: k < j < |keys| && keys[j] !in settled ==> Lt(d[s], d[keys[j]])
  }

  /** Settling `s` keeps the order of ties among the settled nodes. */
  lemma RoundSettledTies(keys: seq<Coord>, d: map<Coord, Dist>, settled: seq<Coord>, unsettled: seq<Coord>, s: Coord,
                         d': map<Coord, Dist>)
    requires TiesAhead(keys, d, settled, unsettled) && SettledTies(keys, d, settled)
    requires s in unsettled && s in keys && s in d
    requires forall u :: u in settled + [s] ==> u in d && u in d' && d'[u] == d[u]
    ensures SettledTies(keys, d', settled + [s])
  {
    var settled' := settled + [s];
    forall i, j | 0 <= i < j < |settled'| && settled'[i] in keys && settled'[j] in keys &&
                  settled'[i] in d' && settled'[j] in d' && d'[settled'[i]] == d'[settled'[j]]
      ensures IndexOf(keys, settled'[j]) < IndexOf(keys, settled'[i])
    {
      assert settled'[i] == settled[i] && settled'[i] in settled';
      assert settled'[j] in settled';
      if j < |settled| {
        assert settled'[j] == settled[j];
      }
    }
  }

  /** One pair of the invariant TiesAhead after settling `s`, whose key position is `k`. */
  lemma TiesAheadAt(nodes: map<Coord, Node>, keys: seq<Coord>, constrained: bool,
                    d: map<Coord, Dist>, pred: map<Coord, Option<Coord>>,
                    settled: seq<Coord>, unsettled: seq<Coord>, s: Coord, k: nat,
                    d': map<Coord, Dist>, pred': map<Coord, Option<Coord>>, u: Coord, v: Coord)
    requires Distinct(keys) && TiesAhead(keys, d, settled, unsettled) && forall c :: c in keys ==> c in d
    requires k < |keys| && keys[k] == s && forall j :: k < j < |keys| && keys[j] !in settled ==> Lt(d[s], d[keys[j]])
    requires Relaxed(nodes, constrained, s, d, pred, d', pred')
    requires u in settled + [s] && u in keys && d'[u] == d[u] && Le(d[u], d[s])
    requires v in unsettled && v != s && v !in settled && v in keys && v in d'
    requires d'[u] == d'[v]
    ensures IndexOf(keys, v) < IndexOf(keys, u)
  {
    assert RelaxedAt(nodes, constrained, s, d, pred, d', pred', v);
    if u == s {
      assert IndexOf(keys, s) == k;
    }
  }

  /** Settling `s`, the last nearest unsettled node in key order, keeps TiesAhead. */
  lemma RoundTiesAhead(nodes: map<Coord, Node>, keys: seq<Coord>, constrained: bool,
                       d: map<Coord, Dist>, pred: map<Coord, Option<Coord>>,
                       settled: seq<Coord>, unsettled: seq<Coord>, s: Coord,
                       d': map<Coord, Dist>, pred': map<Coord, Option<Coord>>)
    requires Distinct(keys) && forall c :: c in keys ==> c in d
    requires Greedy(d, settled, unsettled) && forall v :: v in unsettled ==> v in d && v !in settled && v in keys
    requires TiesAhead(keys, d, settled, unsettled) && Distinct(unsettled)
    requires s in unsettled && LastOfNearest(keys, d, settled, s)
    requires Relaxed(nodes, constrained, s, d, pred, d', pred')
    requires forall u :: u in settled + [s] ==> u in d && u in d' && d'[u] == d[u]
    ensures TiesAhead(keys, d', settled + [s], RemoveFirst(unsettled, s))
  {
    var k :| 0 <= k < |keys| && keys[k] == s && forall j :: k < j < |keys| && keys[j] !in settled ==> Lt(d[s], d[keys[j]]);
    forall u, v | u in settled + [s] && v in RemoveFirst(unsettled, s) && u in keys && v in keys && u in d' && v in d' && d'[u] == d'[v]
      ensures IndexOf(keys, v) < IndexOf(keys, u)
    {
      assert u in settled ==> Le(d[u], d[s]);
      assert v in unsettled && v != s;
      TiesAheadAt(nodes, keys, constrained, d, pred, settled, unsettled, s, k, d', pred', u, v);
    }
  }

  /** A round keeps the tie invariants. */
  lemma RoundKeepsTies(nodes: map<Coord, Node>, keys: seq<Coord>, constrained: bool, s0: Coord,
                       d: map<Coord, Dist>, pred: map<Coord, Option<Coord>>,
                       settled: seq<Coord>, unsettled: seq<Coord>, s: Coord,
                       d': map<Coord, Dist>, pred': map<Coord, Option<Coord>>)
    requires WellFormed(nodes, keys) && LoopInv(nodes, constrained, s0, d, pred, settled, unsettled)
    requires TieInv(nodes, keys, constrained, d, pred, settled, unsettled)
    requires s in unsettled && forall v :: v in unsettled ==> Le(d[s], d[v])
    requires LastOfNearest(keys, d, settled, s)
    requires Relaxed(nodes, constrained, s, d, pred, d', pred')
    ensures TieInv(nodes, keys, constrained, d', pred', settled + [s], RemoveFirst(unsettled, s))
  {
    RoundKeepsSettled(nodes, constrained, s0, d, pred, settled, unsettled, s, d', pred');
    RoundSettledTies(keys, d, settled, unsettled, s, d');
    RoundTiesAhead(nodes, keys, constrained, d, pred, settled, unsettled, s, d', pred');
    RoundPredFirst(nodes, constrained, s0, d, pred, settled, unsettled, s, d', pred');
  }

  lemma RoundPredFirst(nodes: map<Coord, Node>, constrained: bool, s0: Coord,
                       d: map<Coord, Dist>, pred: map<Coord, Option<Coord>>,
                       settled: seq<Coord>, unsettled: seq<Coord>, s: Coord,
                       d': map<Coord, Dist>, pred': map<Coord, Option<Coord>>)
    requires StepsRelaxed(nodes, constrained, d, settled) && PredSettled(pred, settled)
    requires PredFirst(nodes, constrained, d, pred, settled)
    requires s !in settled
    requires Relaxed(nodes, constrained, s, d, pred, d', pred')
    requires Kept(d, pred, d', pred', settled + [s])
    ensures PredFirst(nodes, constrained, d', pred', settled + [s])
  {
    var settled' := settled + [s];
    forall v, j, i | v in pred' && 0 <= j < |settled'| && pred'[v] == Some(settled'[j]) && 0 <= i < j
      ensures !Tight(nodes, constrained, d', settled'[i], v)
    {
      var x, p := settled[i], settled'[j];
      assert settled'[i] == x && x in settled && x in settled';
      assert RelaxedAt(nodes, constrained, s, d, pred, d', pred', v);
      assert j < |settled| ==> p == settled[j];
      assert pred[v] == Some(p) ==> p in settled;
      PredFirstAt(nodes, constrained, d, pred, s, d', pred', x, p, v);
    }
  }

  /**
   * One case of RoundPredFirst: `x` settled before `p`, the predecessor of `v`
   * after the round, has no tight step to `v`, whether the round moved the
   * link to `s` or kept it.
   */
  lemma PredFirstAt(nodes: map<Coord, Node>, constrained: bool,
                    d: map<Coord, Dist>, pred: map<Coord, Option<Coord>>, s: Coord,
                    d': map<Coord, Dist>, pred': map<Coord, Option<Coord>>, x: Coord, p: Coord, v: Coord)
    requires s in d && v in d && v in pred && v in d' && v in pred' && x in d && x in d' && d'[x] == d[x]
    requires RelaxedAt(nodes, constrained, s, d, pred, d', pred', v)
    requires Usable(nodes, constrained, x, v) ==> Le(d[v], Plus(d[x], Weight(nodes, constrained, x, v)))
    requires pred'[v] == Some(p)
    requires pred[v] == Some(p) ==> !Tight(nodes, constrained, d, x, v)
    ensures !Tight(nodes, constrained, d', x, v)
  {
  }

  // ---------------------------------------------------------------------
  // What the settled tables mean.

  /** Once every node is settled, no walk from the source is cheaper than the distance of its end. */
  lemma {:induction false} NoCheaperWalk(nodes: map<Coord, Node>, constrained: bool, s0: Coord,
                                         d: map<Coord, Dist>, pred: map<Coord, Option<Coord>>,
                                         settled: seq<Coord>, p: seq<Coord>)
    requires Tables(nodes, s0, d, pred) && StepsRelaxed(nodes, constrained, d, settled)
    requires forall x :: x in nodes ==> x in settled
    requires IsWalk(nodes, constrained, p) && p[0] == s0
    ensures Le(d[p[|p| - 1]], Fin(WalkCost(nodes, constrained, p)))
    decreases |p|
  {
    if |p| > 1 {
      var q := p[..|p| - 1];
      WalkPrefix(nodes, constrained, p, |p| - 1);
      NoCheaperWalk(nodes, constrained, s0, d, pred, settled, q);
      var u, v := p[|p| - 2], p[|p| - 1];
      assert q[|q| - 1] == u;
      assert Usable(nodes, constrained, u, v);
      assert Le(d[v], Plus(d[u], Weight(nodes, constrained, u, v)));
    }
  }

  /** The nodes strictly nearer than `v`; following a tight link shrinks this set. */
  ghost function Nearer(d: map<Coord, Dist>, v: Coord): set<Coord>
    requires v in d
  {
    set z | z in d && Lt(d[z], d[v])
  }

  lemma SmallerSet<T>(a: set<T>, b: set<T>, x: T)
    requires a <= b && x in b && x !in a
    ensures |a| < |b|
  {
    assert b == a + (b - a);
    assert x in b - a;
  }

  /** A tight step goes to a strictly nearer node. */
  lemma NearerShrinks(nodes: map<Coord, Node>, constrained: bool, d: map<Coord, Dist>, u: Coord, v: Coord)
    requires Tight(nodes, constrained, d, u, v)
    ensures Lt(d[u], d[v]) && |Nearer(d, u)| < |Nearer(d, v)|
  {
    forall z | z in Nearer(d, u) ensures z in Nearer(d, v) {
      assert Lt(d[z], d[u]);
    }
    SmallerSet(Nearer(d, u), Nearer(d, v), u);
  }

  /** Following the predecessor links back from `v` gives a walk from the source costing exactly `d[v]`. */
  lemma PredWalk(nodes: map<Coord, Node>, constrained: bool, s0: Coord,
                 d: map<Coord, Dist>, pred: map<Coord, Option<Coord>>, v: Coord)
      returns (p: seq<Coord>)
    requires Tables(nodes, s0, d, pred) && PredLinks(nodes, constrained, s0, d, pred)
    requires v in d && d[v].Fin?
    ensures Reaches(nodes, constrained, s0, p, v) && WalkCost(nodes, constrained, p) == d[v].value
    decreases |Nearer(d, v)|
  {
    if v == s0 {
      p := [s0];
    } else {
      PredStep(nodes, constrained, s0, d, pred, v);
      var u := pred[v].value;
      NearerShrinks(nodes, constrained, d, u, v);
      var q := PredWalk(nodes, constrained, s0, d, pred, u);
      p := q + [v];
      TightSnoc(nodes, constrained, s0, d, q, u, v);
    }
  }

  /** A walk costing `d[u]` followed by a tight step to `v` is a walk costing `d[v]`. */
  lemma TightSnoc(nodes: map<Coord, Node>, constrained: bool, s0: Coord, d: map<Coord, Dist>, q: seq<Coord>, u: Coord, v: Coord)
    requires Tight(nodes, constrained, d, u, v)
    requires Reaches(nodes, constrained, s0, q, u) && WalkCost(nodes, constrained, q) == d[u].value
    ensures Reaches(nodes, constrained, s0, q + [v], v) && WalkCost(nodes, constrained, q + [v]) == d[v].value
  {
    WalkSnoc(nodes, constrained, q, v);
  }

  /** Extending a walk by one usable step adds that step's weight to its cost. */
  lemma WalkSnoc(nodes: map<Coord, Node>, constrained: bool, q: seq<Coord>, v: Coord)
    requires IsWalk(nodes, constrained, q) && Usable(nodes, constrained, q[|q| - 1], v)
    ensures IsWalk(nodes, constrained, q + [v]) && (q + [v])[0] == q[0]
    ensures WalkCost(nodes, constrained, q + [v]) == WalkCost(nodes, constrained, q) + Weight(nodes, constrained, q[|q| - 1], v)
  {
    var p := q + [v];
    assert p[..|p| - 1] == q;
    forall k | 0 <= k < |p| - 1 ensures Usable(nodes, constrained, p[k], p[k + 1]) {
      if k < |q| - 1 {
        assert p[k] == q[k] && p[k + 1] == q[k + 1];
      }
    }
  }

  /** Once every node is settled, the table entry of `v` is its distance from the source. */
  lemma DistanceAt(nodes: map<Coord, Node>, constrained: bool, s0: Coord,
                   d: map<Coord, Dist>, pred: map<Coord, Option<Coord>>, settled: seq<Coord>, v: Coord)
    requires Tables(nodes, s0, d, pred) && StepsRelaxed(nodes, constrained, d, settled)
    requires PredLinks(nodes, constrained, s0, d, pred)
    requires forall x :: x in nodes ==> x in settled
    requires v in d
    ensures IsDistance(nodes, constrained, s0, v, d[v])
  {
    forall p | Reaches(nodes, constrained, s0, p, v) ensures Le(d[v], Fin(WalkCost(nodes, constrained, p))) {
      NoCheaperWalk(nodes, constrained, s0, d, pred, settled, p);
    }
    if d[v].Fin? {
      var p := PredWalk(nodes, constrained, s0, d, pred, v);
    }
  }

  /** Once every node is settled, every table entry is a distance from the source. */
  lemma AllDistances(nodes: map<Coord, Node>, constrained: bool, s0: Coord,
                     d: map<Coord, Dist>, pred: map<Coord, Option<Coord>>, settled: seq<Coord>)
    requires Tables(nodes, s0, d, pred) && StepsRelaxed(nodes, constrained, d, settled)
    requires PredLinks(nodes, constrained, s0, d, pred)
    requires forall x :: x in nodes ==> x in settled
    ensures forall v :: v in d ==> IsDistance(nodes, constrained, s0, v, d[v])
  {
    forall v | v in d ensures IsDistance(nodes, constrained, s0, v, d[v]) {
      DistanceAt(nodes, constrained, s0, d, pred, settled, v);
    }
  }

  /** When no node is left unsettled, the tables hold the distances and the settling order is sorted. */
  lemma LoopDone(nodes: map<Coord, Node>, keys: seq<Coord>, constrained: bool, s0: Coord,
                 d: map<Coord, Dist>, pred: map<Coord, Option<Coord>>, settled: seq<Coord>)
    requires WellFormed(nodes, keys) && LoopInv(nodes, constrained, s0, d, pred, settled, [])
    ensures forall v :: v in d ==> IsDistance(nodes, constrained, s0, v, d[v])
    ensures Distinct(settled) && |settled| == |keys| && forall v :: v in settled <==> v in nodes
    ensures forall i, j :: 0 <= i < j < |settled| ==> Le(d[settled[i]], d[settled[j]])
  {
    assert forall x :: x in nodes ==> x in settled;
    AllDistances(nodes, constrained, s0, d, pred, settled);
    SameMembersSameLength(settled, keys);
  }

  // ---------------------------------------------------------------------
  // dijkstra

  /**
   * What dijkstra(s0, contraintes) returns, `order` being the order in which
   * its loop settles the nodes:
   * - `d` and `pred` are keyed by the table; the source has distance 0 and no
   *   predecessor; finite distances are not negative;
   * - every `d[v]` is the distance from the source, `Inf` exactly when `v`
   *   cannot be reached;
   * - every predecessor link is a tight step, and every other reached node
   *   has one; with the constraints no link touches water;
   * - `order` lists every node once, in non-decreasing distance, and nodes
   *   at the same distance in decreasing key position (the `<=` of the scan);
   * - the predecessor of `v` is the first node of `order` with a tight step
   *   to `v` (the strict `>` of the relaxation).
   */
  ghost predicate DijkstraOutcome(nodes: map<Coord, Node>, keys: seq<Coord>, constrained: bool, s0: Coord,
                                  pred: map<Coord, Option<Coord>>, d: map<Coord, Dist>, order: seq<Coord>) {
    && Tables(nodes, s0, d, pred)
    && AreDistances(nodes, constrained, s0, d)
    && PredLinks(nodes, constrained, s0, d, pred)
    && (constrained ==> DryLinks(nodes, pred))
    && SettleOrder(nodes, keys, d, order)
    && PredFirst(nodes, constrained, d, pred, order)
  }

  /** Every entry of `d` is the distance from `s0`. */
  ghost predicate AreDistances(nodes: map<Coord, Node>, constrained: bool, s0: Coord, d: map<Coord, Dist>) {
    forall v :: v in d ==> IsDistance(nodes, constrained, s0, v, d[v])
  }

  /** No predecessor link touches water. */
  ghost predicate DryLinks(nodes: map<Coord, Node>, pred: map<Coord, Option<Coord>>) {
    forall v :: v in pred && pred[v].Some? ==>
      v in nodes && pred[v].value in nodes && nodes[v].terrain != Water && nodes[pred[v].value].terrain != Water
  }

  /** `order` lists every node once, in non-decreasing distance, ties in decreasing key position. */
  ghost predicate SettleOrder(nodes: map<Coord, Node>, keys: seq<Coord>, d: map<Coord, Dist>, order: seq<Coord>) {
    && Distinct(order) && |order| == |keys| && (forall v :: v in order <==> v in nodes)
    && SettleOrdered(keys, d, order)
  }

  /**
   * dijkstra(s0, contraintes): every node starts at infinity with no
   * predecessor, the source at 0; each round settles the nearest unsettled
   * node and relaxes the steps out of it, until none is left.
   */
  method Dijkstra(g: HexGraph, s0: Coord, constrained: bool)
    returns (pred: map<Coord, Option<Coord>>, d: map<Coord, Dist>, ghost order: seq<Coord>)
    requires WellFormed(g.nodes, g.keys) && s0 in g.nodes
    ensures DijkstraOutcome(g.nodes, g.keys, constrained, s0, pred, d, order)
  {
    var nodes, keys := g.nodes, g.keys;
    d, pred := map[], map[];
    for k := 0 to |keys|
      invariant forall v :: v in d <==> v in keys[..k]
      invariant pred.Keys == d.Keys
      invariant forall v :: v in d ==> d[v] == Inf && pred[v] == None
    {
      assert keys[..k + 1] == keys[..k] + [keys[k]];
      d, pred := d[keys[k] := Inf], pred[keys[k] := None];
    }
    assert keys[..|keys|] == keys;
    d := d[s0 := Fin(0.0)];
    var settled: seq<Coord> := [];
    var unsettled := keys;
    InitialInv(nodes, keys, constrained, s0, d, pred);
    while unsettled != []
      invariant LoopInv(nodes, constrained, s0, d, pred, settled, unsettled)
      invariant TieInv(nodes, keys, constrained, d, pred, settled, unsettled)
      decreases |unsettled|
    {
      assert unsettled[0] in keys && unsettled[0] !in settled;
      var s := SelectMin(keys, d, settled);
      var d', pred' := Relax(nodes, constrained, s, d, pred);
      RoundKeepsInv(nodes, constrained, s0, d, pred, settled, unsettled, s, d', pred');
      RoundKeepsTies(nodes, keys, constrained, s0, d, pred, settled, unsettled, s, d', pred');
      settled := settled + [s];
      unsettled := RemoveFirst(unsettled, s);
      d, pred := d', pred';
    }
    order := settled;
    LoopDone(nodes, keys, constrained, s0, d, pred, settled);
  }

  // ---------------------------------------------------------------------
  // The outcome of dijkstra is determined by the table and the source.

  /** A node has only one distance. */
  lemma DistanceUnique(nodes: map<Coord, Node>, constrained: bool, a: Coord, v: Coord, d1: Dist, d2: Dist)
    requires IsDistance(nodes, constrained, a, v, d1) && IsDistance(nodes, constrained, a, v, d2)
    ensures d1 == d2
  {
    if d1.Fin? {
      var p1 :| Reaches(nodes, constrained, a, p1, v) && WalkCost(nodes, constrained, p1) == d1.value;
      assert Le(d2, Fin(WalkCost(nodes, constrained, p1)));
    }
    if d2.Fin? {
      var p2 :| Reaches(nodes, constrained, a, p2, v) && WalkCost(nodes, constrained, p2) == d2.value;
      assert Le(d1, Fin(WalkCost(nodes, constrained, p2)));
    }
  }

  /** Two tables of distances from the same source over the same nodes are equal. */
  lemma DistancesUnique(nodes: map<Coord, Node>, constrained: bool, s0: Coord, d1: map<Coord, Dist>, d2: map<Coord, Dist>)
    requires AreDistances(nodes, constrained, s0, d1) && AreDistances(nodes, constrained, s0, d2) && d1.Keys == d2.Keys
    ensures d1 == d2
  {
    forall v | v in d1 ensures d1[v] == d2[v] {
      DistanceUnique(nodes, constrained, s0, v, d1[v], d2[v]);
    }
  }

  /** Non-decreasing distances, and ties in decreasing key position. */
  ghost predicate SettleOrdered(keys: seq<Coord>, d: map<Coord, Dist>, order: seq<Coord>) {
    && (forall x :: x in order ==> x in keys && x in d)
    && (forall i, j :: 0 <= i < j < |order| ==> Le(d[order[i]], d[order[j]]))
    && SettledTies(keys, d, order)
  }

  lemma SettleOrderedTail(keys: seq<Coord>, d: map<Coord, Dist>, order: seq<Coord>)
    requires SettleOrdered(keys, d, order) && order != []
    ensures SettleOrdered(keys, d, order[1..])
  {
    var t := order[1..];
    forall i, j | 0 <= i < j < |t| ensures Le(d[t[i]], d[t[j]]) {
      assert t[i] == order[i + 1] && t[j] == order[j + 1];
    }
    forall i, j | 0 <= i < j < |t| && t[i] in keys && t[j] in keys && t[i] in d && t[j] in d && d[t[i]] == d[t[j]]
      ensures IndexOf(keys, t[j]) < IndexOf(keys, t[i])
    {
      assert t[i] == order[i + 1] && t[j] == order[j + 1];
    }
  }

  /** Two settling orders of the same nodes start with the same node. */
  lemma SettleOrderHead(keys: seq<Coord>, d: map<Coord, Dist>, o1: seq<Coord>, o2: seq<Coord>)
    requires o1 != [] && o2 != [] && o1[0] in o2 && o2[0] in o1
    requires SettleOrdered(keys, d, o1) && SettleOrdered(keys, d, o2)
    ensures o1[0] == o2[0]
  {
  }

  /** Two settling orders of the same nodes, both ordered so, are the same: the order is determined by `d` and `keys`. */
  lemma {:induction false} SettleOrderUnique(keys: seq<Coord>, d: map<Coord, Dist>, o1: seq<Coord>, o2: seq<Coord>)
    requires Distinct(o1) && Distinct(o2) && forall x :: x in o1 <==> x in o2
    requires SettleOrdered(keys, d, o1) && SettleOrdered(keys, d, o2)
    ensures o1 == o2
    decreases |o1|
  {
    SameMembersSameLength(o1, o2);
    if o1 != [] {
      assert o1[0] in o2;
      assert o2 != [] && o2[0] in o2;
      SettleOrderHead(keys, d, o1, o2);
      var x, t1, t2 := o1[0], o1[1..], o2[1..];
      DistinctTail(o1);
      DistinctTail(o2);
      forall z | z in t1 ensures z in t2 {
        assert z in o1 && z != x;
      }
      forall z | z in t2 ensures z in t1 {
        assert z in o2 && z != x;
      }
      SettleOrderedTail(keys, d, o1);
      SettleOrderedTail(keys, d, o2);
      SettleOrderUnique(keys, d, t1, t2);
      assert o1 == [x] + t1 && o2 == [x] + t2;
    }
  }

  /** With the same distances and settling order, the predecessor of `v` is the same. */
  lemma PredUnique(nodes: map<Coord, Node>, keys: seq<Coord>, constrained: bool, s0: Coord,
                   pred1: map<Coord, Option<Coord>>, pred2: map<Coord, Option<Coord>>,
                   d: map<Coord, Dist>, order: seq<Coord>, v: Coord)
    requires Tables(nodes, s0, d, pred1) && PredLinks(nodes, constrained, s0, d, pred1) && PredFirst(nodes, constrained, d, pred1, order)
    requires Tables(nodes, s0, d, pred2) && PredLinks(nodes, constrained, s0, d, pred2) && PredFirst(nodes, constrained, d, pred2, order)
    requires forall x :: x in order <==> x in nodes
    requires v in nodes
    ensures pred1[v] == pred2[v]
  {
    PredExists(nodes, constrained, s0, d, pred1, v);
    PredExists(nodes, constrained, s0, d, pred2, v);
    if pred1[v].Some? {
      var u1, u2 := pred1[v].value, pred2[v].value;
      var j1, j2 := IndexOf(order, u1), IndexOf(order, u2);
      FirstTight(nodes, constrained, d, pred1, order, v, j1);
      FirstTight(nodes, constrained, d, pred2, order, v, j2);
      assert j1 < j2 ==> !Tight(nodes, constrained, d, u1, v);
      assert j2 < j1 ==> !Tight(nodes, constrained, d, u2, v);
    }
  }

  /** A cell has a predecessor exactly when it is reached and is not the source; the link is a tight step from a cell of the table. */
  lemma PredExists(nodes: map<Coord, Node>, constrained: bool, s0: Coord,
                   d: map<Coord, Dist>, pred: map<Coord, Option<Coord>>, v: Coord)
    requires Tables(nodes, s0, d, pred) && PredLinks(nodes, constrained, s0, d, pred) && v in nodes
    ensures pred[v].Some? <==> d[v].Fin? && v != s0
    ensures pred[v].Some? ==> pred[v].value in nodes && Tight(nodes, constrained, d, pred[v].value, v)
  {
    if pred[v].Some? {
      assert Tight(nodes, constrained, d, pred[v].value, v);
    }
  }

  /** If the predecessor of `v` is `order[j]`, no node settled before it has a tight step to `v`. */
  lemma FirstTight(nodes: map<Coord, Node>, constrained: bool, d: map<Coord, Dist>,
                   pred: map<Coord, Option<Coord>>, order: seq<Coord>, v: Coord, j: nat)
    requires PredFirst(nodes, constrained, d, pred, order)
    requires v in pred && j < |order| && pred[v] == Some(order[j])
    ensures forall i :: 0 <= i < j ==> !Tight(nodes, constrained, d, order[i], v)
  {
  }

  /** With the same distances and settling order, the predecessor tables are equal. */
  lemma PredsUnique(nodes: map<Coord, Node>, keys: seq<Coord>, constrained: bool, s0: Coord,
                    pred1: map<Coord, Option<Coord>>, pred2: map<Coord, Option<Coord>>,
                    d: map<Coord, Dist>, order: seq<Coord>)
    requires Tables(nodes, s0, d, pred1) && PredLinks(nodes, constrained, s0, d, pred1) && PredFirst(nodes, constrained, d, pred1, order)
    requires Tables(nodes, s0, d, pred2) && PredLinks(nodes, constrained, s0, d, pred2) && PredFirst(nodes, constrained, d, pred2, order)
    requires forall x :: x in order <==> x in nodes
    ensures pred1 == pred2
  {
    forall v | v in pred1 ensures pred1[v] == pred2[v] {
      PredUnique(nodes, keys, constrained, s0, pred1, pred2, d, order, v);
    }
  }

  /** dijkstra's outcome is determined by the table, its key order, the mode and the source. */
  lemma DijkstraDeterministic(nodes: map<Coord, Node>, keys: seq<Coord>, constrained: bool, s0: Coord,
                              pred1: map<Coord, Option<Coord>>, d1: map<Coord, Dist>, o1: seq<Coord>,
                              pred2: map<Coord, Option<Coord>>, d2: map<Coord, Dist>, o2: seq<Coord>)
    requires WellFormed(nodes, keys)
    requires DijkstraOutcome(nodes, keys, constrained, s0, pred1, d1, o1)
    requires DijkstraOutcome(nodes, keys, constrained, s0, pred2, d2, o2)
    ensures d1 == d2 && o1 == o2 && pred1 == pred2
  {
    DistancesUnique(nodes, constrained, s0, d1, d2);
    SettleOrderUnique(keys, d1, o1, o2);
    PredsUnique(nodes, keys, constrained, s0, pred1, pred2, d1, o1);
  }

  // ---------------------------------------------------------------------
  // pcc_ville_a_b and pcc_villes

  /** Each step of `w` is tight going forward. */
  ghost predicate TightChain(nodes: map<Coord, Node>, constrained: bool, d: map<Coord, Dist>, w: seq<Coord>) {
    |w| >= 1 && forall k :: 0 <= k < |w| - 1 ==> Tight(nodes, constrained, d, w[k], w[k + 1])
  }

  /** Each cell of `w` was reached from the next one by a tight step (the order pcc_ville_a_b collects them in). */
  ghost predicate ChainBack(nodes: map<Coord, Node>, constrained: bool, d: map<Coord, Dist>, w: seq<Coord>) {
    forall k :: 0 <= k < |w| - 1 ==> Tight(nodes, constrained, d, w[k + 1], w[k])
  }

  /** A tight chain is a walk whose cost is the difference of the distances at its ends. */
  lemma {:induction false} TightChainCost(nodes: map<Coord, Node>, constrained: bool, d: map<Coord, Dist>, w: seq<Coord>)
    requires TightChain(nodes, constrained, d, w) && w[0] in nodes && w[0] in d && d[w[0]].Fin?
    ensures IsWalk(nodes, constrained, w) && w[|w| - 1] in d && d[w[|w| - 1]].Fin?
    ensures WalkCost(nodes, constrained, w) == d[w[|w| - 1]].value - d[w[0]].value
    decreases |w|
  {
    if |w| > 1 {
      var v := w[..|w| - 1];
      assert TightChain(nodes, constrained, d, v) by {
        forall k | 0 <= k < |v| - 1 ensures Tight(nodes, constrained, d, v[k], v[k + 1]) {
          assert v[k] == w[k] && v[k + 1] == w[k + 1];
        }
      }
      TightChainCost(nodes, constrained, d, v);
      assert Tight(nodes, constrained, d, w[|w| - 2], w[|w| - 1]);
      assert IsWalk(nodes, constrained, w) by {
        forall k | 0 <= k < |w| ensures w[k] in nodes {
          if k < |w| - 1 {
            assert Tight(nodes, constrained, d, w[k], w[k + 1]);
          }
        }
      }
      assert w[..|w| - 1] == v;
    }
  }

  /** The sum of the distances of the cells of `xs`: what pcc_ville_a_b adds up as the route's weight. */
  ghost function SumDist(d: map<Coord, Dist>, xs: seq<Coord>): real
    requires forall k :: 0 <= k < |xs| ==> xs[k] in d && d[xs[k]].Fin?
    decreases |xs|
  {
    if xs == [] then 0.0 else SumDist(d, xs[..|xs| - 1]) + d[xs[|xs| - 1]].value
  }

  lemma SumDistSnoc(d: map<Coord, Dist>, xs: seq<Coord>, x: Coord)
    requires x in d && d[x].Fin? && forall k :: 0 <= k < |xs| ==> xs[k] in d && d[xs[k]].Fin?
    ensures SumDist(d, xs + [x]) == SumDist(d, xs) + d[x].value
  {
    assert (xs + [x])[..|xs|] == xs;
  }

  lemma {:induction false} SumDistCons(d: map<Coord, Dist>, x: Coord, xs: seq<Coord>)
    requires x in d && d[x].Fin? && forall k :: 0 <= k < |xs| ==> xs[k] in d && d[xs[k]].Fin?
    ensures SumDist(d, [x] + xs) == d[x].value + SumDist(d, xs)
    decreases |xs|
  {
    if xs != [] {
      var init := xs[..|xs| - 1];
      assert ([x] + xs)[..|xs|] == [x] + init;
      SumDistCons(d, x, init);
    } else {
      assert ([x] + xs)[..0] == [];
    }
  }

  lemma {:induction false} SumDistReverse(d: map<Coord, Dist>, xs: seq<Coord>)
    requires forall k :: 0 <= k < |xs| ==> xs[k] in d && d[xs[k]].Fin?
    ensures SumDist(d, Reverse(xs)) == SumDist(d, xs)
    decreases |xs|
  {
    if xs != [] {
      var r := Reverse(xs);
      SumDistReverse(d, xs[1..]);
      assert r[..|r| - 1] == Reverse(xs[1..]);
      assert xs == [xs[0]] + xs[1..];
      SumDistCons(d, xs[0], xs[1..]);
    }
  }

  /** The sum, over every cell of the walk `q`, of the cost of `q` up to that cell. */
  ghost function PrefixCostSum(nodes: map<Coord, Node>, constrained: bool, q: seq<Coord>): real
    requires IsWalk(nodes, constrained, q)
    decreases |q|
  {
    if |q| == 1 then 0.0
    else
      WalkPrefix(nodes, constrained, q, |q| - 1);
      PrefixCostSum(nodes, constrained, q[..|q| - 1]) + WalkCost(nodes, constrained, q)
  }

  /**
   * What pcc_ville_a_b(a, b) returns when b is reachable: the cells from `b`
   * back to `a`, read in reverse a walk from `a` to `b` each of whose prefixes
   * is a shortest walk; the weight is the sum of the prefix costs, i.e. of the
   * distances from `a` of the route's cells.
   */
  ghost predicate RouteSpec(nodes: map<Coord, Node>, constrained: bool, a: Coord, b: Coord, route: Route) {
    var q := Reverse(route.path);
    && Reaches(nodes, constrained, a, q, b)
    && (forall k :: 1 <= k <= |q| ==> IsShortestWalk(nodes, constrained, q[..k]))
    && route.cost == PrefixCostSum(nodes, constrained, q)
  }

  lemma {:induction false} PrefixCostSumIsSumDist(nodes: map<Coord, Node>, constrained: bool, d: map<Coord, Dist>, q: seq<Coord>)
    requires IsWalk(nodes, constrained, q)
    requires forall k :: 0 <= k < |q| ==> q[k] in d && d[q[k]].Fin?
    requires forall k :: 1 <= k <= |q| ==> IsWalk(nodes, constrained, q[..k]) && WalkCost(nodes, constrained, q[..k]) == d[q[k - 1]].value
    ensures PrefixCostSum(nodes, constrained, q) == SumDist(d, q)
    decreases |q|
  {
    assert q[..|q|] == q;
    if |q| == 1 {
      assert q[..0] == [];
    } else {
      var v := q[..|q| - 1];
      WalkPrefix(nodes, constrained, q, |q| - 1);
      forall k | 1 <= k <= |v| ensures IsWalk(nodes, constrained, v[..k]) && WalkCost(nodes, constrained, v[..k]) == d[v[k - 1]].value {
        assert v[..k] == q[..k];
      }
      PrefixCostSumIsSumDist(nodes, constrained, d, v);
    }
  }

  /** Read backwards, a chain collected by following predecessors is a tight chain. */
  lemma ReversedChain(nodes: map<Coord, Node>, constrained: bool, d: map<Coord, Dist>, path: seq<Coord>)
    requires |path| >= 1 && ChainBack(nodes, constrained, d, path)
    ensures TightChain(nodes, constrained, d, Reverse(path))
  {
    var q, n := Reverse(path), |path|;
    forall k | 0 <= k < n - 1 ensures Tight(nodes, constrained, d, q[k], q[k + 1]) {
      assert Tight(nodes, constrained, d, path[n - 1 - k], path[n - 1 - k - 1]);
    }
  }

  /** Every prefix of a tight chain from the source is a shortest walk, costing the distance of its end. */
  lemma TightPrefixShortest(nodes: map<Coord, Node>, constrained: bool, a: Coord, d: map<Coord, Dist>,
                            q: seq<Coord>, k: nat)
    requires a in d && d[a] == Fin(0.0)
    requires forall v :: v in d ==> IsDistance(nodes, constrained, a, v, d[v])
    requires TightChain(nodes, constrained, d, q) && q[0] == a && 1 <= k <= |q|
    ensures IsWalk(nodes, constrained, q[..k]) && q[k - 1] in d && d[q[k - 1]].Fin?
    ensures WalkCost(nodes, constrained, q[..k]) == d[q[k - 1]].value
    ensures IsShortestWalk(nodes, constrained, q[..k])
  {
    var w := q[..k];
    assert TightChain(nodes, constrained, d, w) by {
      forall i | 0 <= i < k - 1 ensures Tight(nodes, constrained, d, w[i], w[i + 1]) {
        assert w[i] == q[i] && w[i + 1] == q[i + 1];
      }
    }
    assert a in nodes by {
      if |q| > 1 {
        assert Tight(nodes, constrained, d, q[0], q[1]);
      } else {
        assert IsDistance(nodes, constrained, a, a, d[a]);
      }
    }
    TightChainCost(nodes, constrained, d, w);
    assert IsDistance(nodes, constrained, a, q[k - 1], d[q[k - 1]]);
  }

  /** The cells pcc_ville_a_b collects, once the origin is reached, form a route as RouteSpec describes. */
  lemma ChainIsRoute(nodes: map<Coord, Node>, constrained: bool, a: Coord, d: map<Coord, Dist>, path: seq<Coord>)
    requires a in d && d[a] == Fin(0.0)
    requires forall v :: v in d ==> IsDistance(nodes, constrained, a, v, d[v])
    requires |path| >= 1 && path[|path| - 1] == a && ChainBack(nodes, constrained, d, path)
    requires forall k :: 0 <= k < |path| ==> path[k] in d && d[path[k]].Fin?
    ensures RouteSpec(nodes, constrained, a, path[0], Route(path, SumDist(d, path)))
  {
    var q := Reverse(path);
    ReversedChain(nodes, constrained, d, path);
    TightPrefixesShortest(nodes, constrained, a, d, q);
    assert q[..|q|] == q;
    PrefixCostSumIsSumDist(nodes, constrained, d, q);
    SumDistReverse(d, path);
  }

  /** TightPrefixShortest for every prefix at once. */
  lemma TightPrefixesShortest(nodes: map<Coord, Node>, constrained: bool, a: Coord, d: map<Coord, Dist>, q: seq<Coord>)
    requires a in d && d[a] == Fin(0.0)
    requires forall v :: v in d ==> IsDistance(nodes, constrained, a, v, d[v])
    requires TightChain(nodes, constrained, d, q) && |q| >= 1 && q[0] == a
    ensures forall k :: 1 <= k <= |q| ==>
              && IsWalk(nodes, constrained, q[..k]) && q[k - 1] in d && d[q[k - 1]].Fin?
              && WalkCost(nodes, constrained, q[..k]) == d[q[k - 1]].value
              && IsShortestWalk(nodes, constrained, q[..k])
  {
    forall k | 1 <= k <= |q|
      ensures && IsWalk(nodes, constrained, q[..k]) && q[k - 1] in d && d[q[k - 1]].Fin?
              && WalkCost(nodes, constrained, q[..k]) == d[q[k - 1]].value
              && IsShortestWalk(nodes, constrained, q[..k])
    {
      TightPrefixShortest(nodes, constrained, a, d, q, k);
    }
  }

  /** A distance is finite exactly when the node can be reached. */
  lemma DistanceReachable(nodes: map<Coord, Node>, constrained: bool, a: Coord, b: Coord, db: Dist)
    requires IsDistance(nodes, constrained, a, b, db)
    ensures db.Fin? <==> Reachable(nodes, constrained, a, b)
  {
    if Reachable(nodes, constrained, a, b) {
      var p :| Reaches(nodes, constrained, a, p, b);
      assert Le(db, Fin(WalkCost(nodes, constrained, p)));
    }
  }

  /** Without the constraints a walk costs its number of steps. */
  lemma {:induction false} HopCost(nodes: map<Coord, Node>, q: seq<Coord>)
    requires IsWalk(nodes, false, q)
    ensures WalkCost(nodes, false, q) == (|q| - 1) as real
    decreases |q|
  {
    if |q| > 1 {
      WalkPrefix(nodes, false, q, |q| - 1);
      HopCost(nodes, q[..|q| - 1]);
    }
  }

  /** Without the constraints the prefix costs of a k-step walk add up to 0 + 1 + ... + k. */
  lemma {:induction false} HopPrefixSum(nodes: map<Coord, Node>, q: seq<Coord>)
    requires IsWalk(nodes, false, q)
    ensures 2.0 * PrefixCostSum(nodes, false, q) == ((|q| - 1) * |q|) as real
    decreases |q|
  {
    if |q| > 1 {
      WalkPrefix(nodes, false, q, |q| - 1);
      HopPrefixSum(nodes, q[..|q| - 1]);
      HopCost(nodes, q);
      assert (|q| - 1) * |q| == (|q| - 2) * (|q| - 1) + 2 * (|q| - 1);
    }
  }

  /**
   * Without the constraints a route of k steps found by pcc_ville_a_b weighs
   * k(k+1)/2, not k: the weight adds up the distances of all its cells.
   */
  lemma UnconstrainedRouteCost(nodes: map<Coord, Node>, a: Coord, b: Coord, route: Route)
    requires RouteSpec(nodes, false, a, b, route)
    ensures 2.0 * route.cost == ((|route.path| - 1) * |route.path|) as real
  {
    HopPrefixSum(nodes, Reverse(route.path));
  }

  /** A reached node other than the source has a predecessor, one tight step nearer. */
  lemma PredStep(nodes: map<Coord, Node>, constrained: bool, s0: Coord,
                 d: map<Coord, Dist>, pred: map<Coord, Option<Coord>>, v: Coord)
    requires PredLinks(nodes, constrained, s0, d, pred) && v in d && d[v].Fin? && v != s0
    ensures v in pred && pred[v].Some? && Tight(nodes, constrained, d, pred[v].value, v)
  {
  }

  /** A chain collected backwards grows by one cell whose tight step leads to the current last cell. */
  lemma ChainBackSnoc(nodes: map<Coord, Node>, constrained: bool, d: map<Coord, Dist>, w: seq<Coord>, u: Coord)
    requires |w| >= 1 && ChainBack(nodes, constrained, d, w) && Tight(nodes, constrained, d, u, w[|w| - 1])
    ensures ChainBack(nodes, constrained, d, w + [u])
  {
    var w' := w + [u];
    forall k | 0 <= k < |w'| - 1 ensures Tight(nodes, constrained, d, w'[k + 1], w'[k]) {
      if k < |w| - 1 {
        assert w'[k + 1] == w[k + 1] && w'[k] == w[k];
      }
    }
  }

  /** Each cell of `w` but the last has the next cell as predecessor. */
  ghost predicate PredChain(pred: map<Coord, Option<Coord>>, w: seq<Coord>) {
    forall k :: 0 <= k < |w| - 1 ==> w[k] in pred && pred[w[k]] == Some(w[k + 1])
  }

  lemma PredChainSnoc(pred: map<Coord, Option<Coord>>, w: seq<Coord>, x: Coord)
    requires PredChain(pred, w) && (w != [] ==> w[|w| - 1] in pred && pred[w[|w| - 1]] == Some(x))
    ensures PredChain(pred, w + [x])
  {
    var w' := w + [x];
    forall k | 0 <= k < |w'| - 1 ensures w'[k] in pred && pred[w'[k]] == Some(w'[k + 1]) {
      if k < |w| - 1 {
        assert w'[k] == w[k] && w'[k + 1] == w[k + 1];
      }
    }
  }

  /** Following one predecessor table from the same cell to a cell without predecessor gives one list only. */
  lemma {:induction false} PredChainUnique(pred: map<Coord, Option<Coord>>, a: Coord, p1: seq<Coord>, p2: seq<Coord>)
    requires a in pred && pred[a] == None
    requires PredChain(pred, p1) && PredChain(pred, p2)
    requires |p1| >= 1 && |p2| >= 1 && p1[0] == p2[0] && p1[|p1| - 1] == a && p2[|p2| - 1] == a
    ensures p1 == p2
    decreases |p1|
  {
    // a cell with a successor in a chain has a predecessor, and `a` has none
    assert |p1| > 1 ==> pred[p1[0]] == Some(p1[1]);
    assert |p2| > 1 ==> pred[p2[0]] == Some(p2[1]);
    if |p1| > 1 && |p2| > 1 {
      var t1, t2 := p1[1..], p2[1..];
      assert PredChain(pred, t1) by {
        forall k | 0 <= k < |t1| - 1 ensures t1[k] in pred && pred[t1[k]] == Some(t1[k + 1]) {
          assert t1[k] == p1[k + 1] && t1[k + 1] == p1[k + 2];
        }
      }
      assert PredChain(pred, t2) by {
        forall k | 0 <= k < |t2| - 1 ensures t2[k] in pred && pred[t2[k]] == Some(t2[k + 1]) {
          assert t2[k] == p2[k + 1] && t2[k + 1] == p2[k + 2];
        }
      }
      PredChainUnique(pred, a, t1, t2);
      assert p1 == [p1[0]] + t1 && p2 == [p2[0]] + t2;
    } else {
      assert p1 == [a] == p2;
    }
  }

  /**
   * The state of the loop below: `chemin` is a backward tight chain starting
   * at `b` whose last cell is one tight step beyond the current cell `tmp`.
   */
  ghost predicate Collecting(nodes: map<Coord, Node>, constrained: bool, b: Coord, d: map<Coord, Dist>,
                             chemin: seq<Coord>, tmp: Coord) {
    && tmp in d && d[tmp].Fin?
    && (forall k :: 0 <= k < |chemin| ==> chemin[k] in d && d[chemin[k]].Fin?)
    && ChainBack(nodes, constrained, d, chemin)
    && if chemin == [] then tmp == b
       else chemin[0] == b && Tight(nodes, constrained, d, tmp, chemin[|chemin| - 1])
  }

  /** The state of the loop below, with the predecessor links: each collected cell's predecessor is the next, the last one's is `tmp`. */
  ghost predicate Following(nodes: map<Coord, Node>, constrained: bool, b: Coord, d: map<Coord, Dist>,
                            pred: map<Coord, Option<Coord>>, chemin: seq<Coord>, tmp: Coord) {
    && Collecting(nodes, constrained, b, d, chemin, tmp)
    && PredChain(pred, chemin)
    && (chemin != [] ==> chemin[|chemin| - 1] in pred && pred[chemin[|chemin| - 1]] == Some(tmp))
  }

  /** One round of the loop below: the current cell joins the list, and its predecessor is one tight step nearer. */
  lemma FollowStep(nodes: map<Coord, Node>, constrained: bool, a: Coord, b: Coord,
                   d: map<Coord, Dist>, pred: map<Coord, Option<Coord>>, chemin: seq<Coord>, tmp: Coord)
    requires PredLinks(nodes, constrained, a, d, pred) && tmp != a
    requires Following(nodes, constrained, b, d, pred, chemin, tmp)
    ensures tmp in pred && pred[tmp].Some?
    ensures Following(nodes, constrained, b, d, pred, chemin + [tmp], pred[tmp].value)
    ensures d[pred[tmp].value].value.Floor < d[tmp].value.Floor
    ensures SumDist(d, chemin + [tmp]) == SumDist(d, chemin) + d[tmp].value
  {
    PredStep(nodes, constrained, a, d, pred, tmp);
    var u := pred[tmp].value;
    if chemin != [] {
      ChainBackSnoc(nodes, constrained, d, chemin, tmp);
    }
    SumDistSnoc(d, chemin, tmp);
    PredChainSnoc(pred, chemin, tmp);
  }

  /** Closing the collected cells with the source gives the chain the loop below returns. */
  lemma FollowEnd(nodes: map<Coord, Node>, constrained: bool, b: Coord, d: map<Coord, Dist>,
                  pred: map<Coord, Option<Coord>>, chemin: seq<Coord>, a: Coord)
    requires Following(nodes, constrained, b, d, pred, chemin, a)
    ensures PredChain(pred, chemin + [a])
    ensures |chemin + [a]| >= 1 && (chemin + [a])[0] == b && (chemin + [a])[|chemin|] == a
    ensures ChainBack(nodes, constrained, d, chemin + [a])
    ensures forall k :: 0 <= k < |chemin + [a]| ==> (chemin + [a])[k] in d && d[(chemin + [a])[k]].Fin?
    ensures SumDist(d, chemin + [a]) == SumDist(d, chemin) + d[a].value
  {
    if chemin != [] {
      ChainBackSnoc(nodes, constrained, d, chemin, a);
    }
    SumDistSnoc(d, chemin, a);
    PredChainSnoc(pred, chemin, a);
  }

  /**
   * The loop of pcc_ville_a_b: from `b`, collect each cell and add its
   * distance, then step to its predecessor, until `a` is reached; `a` closes
   * the list.
   */
  method FollowPreds(ghost nodes: map<Coord, Node>, ghost constrained: bool, a: Coord, b: Coord,
                     d: map<Coord, Dist>, pred: map<Coord, Option<Coord>>)
    returns (chemin: seq<Coord>, poids: real)
    requires PredLinks(nodes, constrained, a, d, pred) && a in d && d[a] == Fin(0.0)
    requires forall v :: v in d && d[v].Fin? ==> d[v].value >= 0.0
    requires b in d && d[b].Fin?
    ensures |chemin| >= 1 && chemin[0] == b && chemin[|chemin| - 1] == a
    ensures ChainBack(nodes, constrained, d, chemin) && PredChain(pred, chemin)
    ensures forall k :: 0 <= k < |chemin| ==> chemin[k] in d && d[chemin[k]].Fin?
    ensures poids == SumDist(d, chemin)
    ensures a == b ==> chemin == [a] && poids == 0.0
  {
    var tmp := b;
    chemin := [];
    poids := 0.0;
    while tmp != a
      invariant Following(nodes, constrained, b, d, pred, chemin, tmp)
      invariant poids == SumDist(d, chemin)
      invariant a == b ==> chemin == []
      decreases d[tmp].value.Floor
    {
      FollowStep(nodes, constrained, a, b, d, pred, chemin, tmp);
      chemin, poids, tmp := chemin + [tmp], poids + d[tmp].value, pred[tmp].value;
    }
    FollowEnd(nodes, constrained, b, d, pred, chemin, a);
    chemin, poids := chemin + [a], poids + d[a].value;
  }

  /** `path` is read off the predecessor table that dijkstra from `a` returns. */
  ghost predicate DijkstraRoute(nodes: map<Coord, Node>, keys: seq<Coord>, constrained: bool, a: Coord, path: seq<Coord>) {
    exists pred, d, order :: DijkstraOutcome(nodes, keys, constrained, a, pred, d, order) && PredChain(pred, path)
  }

  /**
   * Two routes from `b` back to `a` read off dijkstra's tables are the same
   * route: given the table and the mode, pcc_ville_a_b's path is determined.
   */
  lemma DijkstraRouteUnique(nodes: map<Coord, Node>, keys: seq<Coord>, constrained: bool, a: Coord, p1: seq<Coord>, p2: seq<Coord>)
    requires WellFormed(nodes, keys)
    requires DijkstraRoute(nodes, keys, constrained, a, p1) && DijkstraRoute(nodes, keys, constrained, a, p2)
    requires |p1| >= 1 && |p2| >= 1 && p1[0] == p2[0] && p1[|p1| - 1] == a && p2[|p2| - 1] == a
    ensures p1 == p2
  {
    var pred1, d1, o1 :| DijkstraOutcome(nodes, keys, constrained, a, pred1, d1, o1) && PredChain(pred1, p1);
    var pred2, d2, o2 :| DijkstraOutcome(nodes, keys, constrained, a, pred2, d2, o2) && PredChain(pred2, p2);
    DijkstraDeterministic(nodes, keys, constrained, a, pred1, d1, o1, pred2, d2, o2);
    PredChainUnique(pred1, a, p1, p2);
  }

  /** `path` is a predecessor chain of every outcome of dijkstra from `a`; with DijkstraRoute, of the one outcome. */
  ghost predicate OnDijkstraChain(nodes: map<Coord, Node>, keys: seq<Coord>, constrained: bool, a: Coord, path: seq<Coord>) {
    forall pred, d, order :: DijkstraOutcome(nodes, keys, constrained, a, pred, d, order) ==> PredChain(pred, path)
  }

  /** Since dijkstra's outcome is unique, a route read off one outcome is read off every outcome. */
  lemma DijkstraRouteEvery(nodes: map<Coord, Node>, keys: seq<Coord>, constrained: bool, a: Coord, path: seq<Coord>)
    requires WellFormed(nodes, keys) && DijkstraRoute(nodes, keys, constrained, a, path)
    ensures OnDijkstraChain(nodes, keys, constrained, a, path)
  {
    var pred1, d1, o1 :| DijkstraOutcome(nodes, keys, constrained, a, pred1, d1, o1) && PredChain(pred1, path);
    forall pred, d, order | DijkstraOutcome(nodes, keys, constrained, a, pred, d, order) ensures PredChain(pred, path) {
      DijkstraDeterministic(nodes, keys, constrained, a, pred1, d1, o1, pred, d, order);
    }
  }

  /**
   * pcc_ville_a_b(a, b): run dijkstra from `a`, then follow the predecessors
   * back from `b` to `a`, collecting the cells and adding up their
   * distances.  When `b` cannot be reached the source fails; the model
   * returns None instead.
   */
  method RouteBetween(g: HexGraph, a: Coord, b: Coord, constrained: bool) returns (r: Option<Route>)
    requires WellFormed(g.nodes, g.keys) && a in g.nodes && b in g.nodes
    ensures r.None? <==> !Reachable(g.nodes, constrained, a, b)
    ensures r.Some? ==> RouteSpec(g.nodes, constrained, a, b, r.value) && r.value.path[0] == b
    ensures r.Some? ==> DijkstraRoute(g.nodes, g.keys, constrained, a, r.value.path)
    ensures r.Some? ==> OnDijkstraChain(g.nodes, g.keys, constrained, a, r.value.path)
    ensures a == b ==> r == Some(Route([a], 0.0))
  {
    var pred, d;
    ghost var order;
    pred, d, order := Dijkstra(g, a, constrained);
    DistanceReachable(g.nodes, constrained, a, b, d[b]);
    if d[b].Inf? {
      return None;
    }
    var chemin, poids := FollowPreds(g.nodes, constrained, a, b, d, pred);
    ChainIsRoute(g.nodes, constrained, a, d, chemin);
    assert DijkstraOutcome(g.nodes, g.keys, constrained, a, pred, d, order) && PredChain(pred, chemin);
    DijkstraRouteEvery(g.nodes, g.keys, constrained, a, chemin);
    r := Some(Route(chemin, poids));
  }

  /** What pcc_villes stores for the route from `from` to `to`. */
  ghost predicate Stored(nodes: map<Coord, Node>, keys: seq<Coord>, constrained: bool, from: Coord, to: Coord, r: Option<Route>) {
    && (r.None? <==> !Reachable(nodes, constrained, from, to))
    && (r.Some? ==> RouteSpec(nodes, constrained, from, to, r.value) && r.value.path[0] == to)
    && (r.Some? ==> OnDijkstraChain(nodes, keys, constrained, from, r.value.path))
  }

  /** Row `i` holds, for every other settlement `j` of `vs`, what pcc_villes stores for the route from `j` to `i`. */
  ghost predicate RowStored(nodes: map<Coord, Node>, keys: seq<Coord>, constrained: bool, i: Coord, vs: seq<Coord>,
                            row: map<Coord, Option<Route>>) {
    forall j :: j in vs && j != i ==> j in row && Stored(nodes, keys, constrained, j, i, row[j])
  }

  /** Row `i` agrees with `row0` everywhere but at the other settlements of `vs`. */
  ghost predicate RowKept(i: Coord, vs: seq<Coord>, row: map<Coord, Option<Route>>, row0: map<Coord, Option<Route>>) {
    forall j :: !(j in vs && j != i) ==> (j in row <==> j in row0) && (j in row ==> row[j] == row0[j])
  }

  /** The inner loop of pcc_villes: the routes from every other settlement to `i`, stored in i's row. */
  method RoutesTo(g: HexGraph, i: Coord, vs: seq<Coord>, constrained: bool, row: map<Coord, Option<Route>>)
    returns (row': map<Coord, Option<Route>>)
    requires WellFormed(g.nodes, g.keys) && i in g.nodes && forall j :: j in vs ==> j in g.nodes
    ensures RowStored(g.nodes, g.keys, constrained, i, vs, row') && RowKept(i, vs, row', row)
  {
    row' := row;
    for y := 0 to |vs|
      invariant RowStored(g.nodes, g.keys, constrained, i, vs[..y], row') && RowKept(i, vs[..y], row', row)
    {
      var j := vs[y];
      assert vs[..y + 1] == vs[..y] + [j];
      if i != j {
        var r := RouteBetween(g, j, i, constrained);
        RowAdd(g.nodes, g.keys, constrained, i, vs[..y], j, row', r);
        RowKeptAdd(i, vs[..y], j, row', row, row'[j := r]);
        row' := row'[j := r];
      } else {
        RowSkip(g.nodes, g.keys, constrained, i, vs[..y], row');
        RowKeptAdd(i, vs[..y], j, row', row, row');
      }
    }
    assert vs[..|vs|] == vs;
  }

  /** One pass of the inner loop of pcc_villes for `j != i`: the route from `j` joins row `i`. */
  lemma RowAdd(nodes: map<Coord, Node>, keys: seq<Coord>, constrained: bool, i: Coord, vs: seq<Coord>, j: Coord,
               row: map<Coord, Option<Route>>, r: Option<Route>)
    requires RowStored(nodes, keys, constrained, i, vs, row)
    requires j != i && Stored(nodes, keys, constrained, j, i, r)
    ensures RowStored(nodes, keys, constrained, i, vs + [j], row[j := r])
  {
    var row' := row[j := r];
    forall k | k in vs + [j] && k != i ensures k in row' && Stored(nodes, keys, constrained, k, i, row'[k]) {
      if k == j {
        assert row'[k] == r;
      } else {
        assert k in vs && row'[k] == row[k];
      }
    }
  }

  /** The entries of row `i` outside the settlements seen so far are those of `row0`. */
  lemma RowKeptAdd(i: Coord, vs: seq<Coord>, j: Coord, row: map<Coord, Option<Route>>,
                   row0: map<Coord, Option<Route>>, row': map<Coord, Option<Route>>)
    requires RowKept(i, vs, row, row0)
    requires row'.Keys == row.Keys + (if j != i then {j} else {})
    requires forall k :: k in row && (k != j || j == i) ==> row'[k] == row[k]
    ensures RowKept(i, vs + [j], row', row0)
  {
    forall k | !(k in vs + [j] && k != i) ensures (k in row' <==> k in row0) && (k in row' ==> row'[k] == row0[k]) {
      assert !(k in vs && k != i);
    }
  }

  /** Skipping `j == i` keeps row `i`. */
  lemma RowSkip(nodes: map<Coord, Node>, keys: seq<Coord>, constrained: bool, i: Coord, vs: seq<Coord>,
                row: map<Coord, Option<Route>>)
    requires RowStored(nodes, keys, constrained, i, vs, row)
    ensures RowStored(nodes, keys, constrained, i, vs + [i], row)
  {
    forall k | k in vs + [i] && k != i ensures k in row && Stored(nodes, keys, constrained, k, i, row[k]) {
      assert k in vs;
    }
  }

  /**
   * pcc_villes: for every ordered pair of distinct settlements (i, j), the
   * route from j to i is stored at villes[i][j]; nothing else changes.
   */
  method PccVilles(v: Ville, constrained: bool)
    requires v.Valid() && WellFormed(v.grid.nodes, v.grid.keys)
    requires forall c :: c in v.order ==> c in v.grid.nodes
    modifies v
    ensures v.Valid() && v.order == old(v.order) && v.villes.Keys == old(v.villes.Keys)
    ensures forall i :: i in v.villes ==>
              RowStored(v.grid.nodes, v.grid.keys, constrained, i, v.order, v.villes[i]) && RowKept(i, v.order, v.villes[i], old(v.villes[i]))
  {
    var vs := v.GetVilles();
    ghost var villes0 := v.villes;
    for x := 0 to |vs|
      invariant v.Valid() && v.order == vs && v.villes.Keys == villes0.Keys
      invariant forall i :: i in vs[..x] ==>
                  RowStored(v.grid.nodes, v.grid.keys, constrained, i, vs, v.villes[i]) && RowKept(i, vs, v.villes[i], villes0[i])
      invariant forall i :: i in vs && i !in vs[..x] ==> v.villes[i] == villes0[i]
    {
      var i := vs[x];
      assert vs[..x + 1] == vs[..x] + [i];
      var row := RoutesTo(v.grid, i, vs, constrained, v.villes[i]);
      v.villes := v.villes[i := row];
    }
    assert vs[..|vs|] == vs;
  }
}
