/**
 * River carving: from a source cell, a depth-first search follows the steps
 * to neighbours that are not higher; the longest chain of the search tree,
 * from a cell back to the source, becomes water when it has more than two
 * cells.  Rivers are carved from drawn cells until 1 + height * width / 50
 * of them have succeeded.
 */
module Rivers {
  import opened Seqs
  import opened Hex

  /** The value pred holds for a cell: the source marker "/" or the cell it was reached from. */
  datatype Parent = Source | From(cell: Coord)

  /** Every neighbour listed in the table is a cell of the table. */
  ghost predicate Closed(nodes: map<Coord, Node>) {
    forall c, n :: c in nodes && n in nodes[c].neighbors ==> n in nodes
  }

  /** The search may step from `u` to `v`: `v` is a neighbour of `u` and not higher. */
  predicate Descends(nodes: map<Coord, Node>, u: Coord, v: Coord) {
    u in nodes && v in nodes && v in nodes[u].neighbors && nodes[v].altitude <= nodes[u].altitude
  }

  /** A walk that never climbs. */
  ghost predicate DescendingWalk(nodes: map<Coord, Node>, p: seq<Coord>) {
    |p| >= 1 && forall k :: 0 <= k < |p| - 1 ==> Descends(nodes, p[k], p[k + 1])
  }

  // ---------------------------------------------------------------------
  // The search tree and its chains.

  /** Each parent has a smaller rank than its child, so following parents ends at the source marker. */
  ghost predicate Ranked(pred: map<Coord, Parent>, rank: map<Coord, nat>) {
    forall v {:trigger pred[v]} :: v in pred ==>
      v in rank && (pred[v].From? ==> pred[v].cell in pred && pred[v].cell in rank && rank[pred[v].cell] < rank[v])
  }

  /** The parent links of a search from `n`: only `n` is a source, every other link is a descending step. */
  ghost predicate TreeLinks(nodes: map<Coord, Node>, n: Coord, pred: map<Coord, Parent>) {
    && n in pred && pred[n] == Source
    && forall v :: v in pred && v != n ==> pred[v].From? && Descends(nodes, pred[v].cell, v)
  }

  /** The cells from `i` back to the source, following pred. */
  function Chain(pred: map<Coord, Parent>, ghost rank: map<Coord, nat>, i: Coord): (r: seq<Coord>)
    requires Ranked(pred, rank) && i in pred
    ensures |r| >= 1 && r[0] == i
    decreases rank[i]
  {
    match pred[i]
    case Source => [i]
    case From(u) => [i] + Chain(pred, rank, u)
  }

  /** A chain of the search tree is a river bed: distinct cells, each not higher than the next, ending at the source. */
  lemma {:induction false} ChainDescends(nodes: map<Coord, Node>, n: Coord, pred: map<Coord, Parent>,
                                         rank: map<Coord, nat>, i: Coord)
    requires Ranked(pred, rank) && TreeLinks(nodes, n, pred) && i in pred
    ensures var c := Chain(pred, rank, i);
      && c[|c| - 1] == n && Distinct(c)
      && (forall k :: 0 <= k < |c| - 1 ==> Descends(nodes, c[k + 1], c[k]))
      && forall k :: 0 <= k < |c| ==> c[k] in rank && rank[c[k]] <= rank[i]
    decreases rank[i]
  {
    var c := Chain(pred, rank, i);
    if pred[i].From? {
      var u := pred[i].cell;
      ChainDescends(nodes, n, pred, rank, u);
      var t := Chain(pred, rank, u);
      assert c == [i] + t;
      assert i !in t by {
        forall k | 0 <= k < |t| ensures t[k] != i {
          assert rank[t[k]] <= rank[u] < rank[i];
        }
      }
      DistinctCons(i, t);
      forall k | 0 <= k < |c| - 1 ensures Descends(nodes, c[k + 1], c[k]) {
        if k > 0 {
          assert c[k + 1] == t[k] && c[k] == t[k - 1];
        }
      }
    } else {
      assert i == n;
    }
  }

  // ---------------------------------------------------------------------
  // The depth-first search of dfs_riviere.

  /** The stack and the popped cells are disjoint lists without repeats; pred covers exactly both. */
  ghost predicate DfsSets(nodes: map<Coord, Node>, stack: seq<Coord>, result: seq<Coord>, pred: map<Coord, Parent>) {
    && Distinct(stack) && Distinct(result) && (forall v {:trigger v in stack} :: v in stack ==> v !in result)
    && (forall v {:trigger v in pred} :: v in pred <==> v in stack || v in result)
    && (forall v {:trigger v in pred} :: v in pred ==> v in nodes)
  }

  /** The popped cells are ranked in popping order, and every parent has been popped before its child. */
  ghost predicate DfsRanks(result: seq<Coord>, pred: map<Coord, Parent>, rank: map<Coord, nat>) {
    && (forall v {:trigger v in rank} :: v in rank <==> v in result)
    && (forall v {:trigger rank[v]} :: v in rank ==> rank[v] < |result|)
    && (forall v {:trigger pred[v]} :: v in pred && pred[v].From? ==> pred[v].cell in result)
    && forall v {:trigger pred[v]} :: v in pred && v in rank && pred[v].From? ==>
         pred[v].cell in rank && rank[pred[v].cell] < rank[v]
  }

  /** The state of the search apart from the closure property. */
  ghost predicate DfsCore(nodes: map<Coord, Node>, n: Coord, stack: seq<Coord>, result: seq<Coord>,
                          pred: map<Coord, Parent>, rank: map<Coord, nat>) {
    && DfsSets(nodes, stack, result, pred)
    && DfsRanks(result, pred, rank)
    && TreeLinks(nodes, n, pred)
    && (result == [] ==> stack == [n])
    && (result != [] ==> result[0] == n)
  }

  /** Every descending step out of a popped cell, other than `except`, leads to a cell already seen. */
  ghost predicate ClosedExcept(nodes: map<Coord, Node>, result: seq<Coord>, pred: map<Coord, Parent>, except: Coord) {
    forall u, v :: u in result && u != except && Descends(nodes, u, v) ==> v in pred
  }

  lemma PopSets(nodes: map<Coord, Node>, stack: seq<Coord>, result: seq<Coord>, pred: map<Coord, Parent>)
    requires DfsSets(nodes, stack, result, pred) && stack != []
    ensures var tmp := stack[|stack| - 1];
      && tmp !in result && tmp in nodes
      && DfsSets(nodes, stack[..|stack| - 1], result + [tmp], pred)
  {
    var tmp := stack[|stack| - 1];
    var stack', result' := stack[..|stack| - 1], result + [tmp];
    assert stack == stack' + [tmp];
    assert tmp in stack && tmp in pred && tmp !in result;
    assert Distinct(stack') by {
      forall i, j | 0 <= i < j < |stack'| ensures stack'[i] != stack'[j] {
        assert stack'[i] == stack[i] && stack'[j] == stack[j];
      }
    }
    assert Distinct(result') by {
      forall i, j | 0 <= i < j < |result'| ensures result'[i] != result'[j] {
        if j == |result| {
          assert result'[i] in result;
        } else {
          assert result'[i] == result[i] && result'[j] == result[j];
        }
      }
    }
    forall v | v in stack' ensures v != tmp && v in stack {
      var k :| 0 <= k < |stack'| && stack'[k] == v;
      assert stack[k] == v && stack[|stack| - 1] == tmp;
    }
    forall v | v in stack' ensures v !in result' {
      assert v in stack;
    }
    forall v | v in stack' || v in result' ensures v in pred {
      if v in stack' {
        assert v in stack;
      } else if v != tmp {
        assert v in result;
      }
    }
    forall v | v in pred ensures v in stack' || v in result' {
      if v in stack && v != tmp {
        var k :| 0 <= k < |stack| && stack[k] == v;
        assert k < |stack| - 1 && stack'[k] == v;
      }
      if v in result {
        assert v in result';
      }
    }
  }

  lemma PopRanks(result: seq<Coord>, pred: map<Coord, Parent>, rank: map<Coord, nat>, tmp: Coord)
    requires DfsRanks(result, pred, rank) && tmp !in result
    ensures DfsRanks(result + [tmp], pred, rank[tmp := |result|])
  {
    var result', rank' := result + [tmp], rank[tmp := |result|];
    forall v | v in rank' ensures v in result' && rank'[v] < |result'| {
      if v != tmp {
        assert v in rank && v in result && rank[v] < |result|;
      }
    }
    forall v | v in result' ensures v in rank' {
      if v != tmp {
        assert v in result;
      }
    }
    forall v | v in pred && pred[v].From? ensures pred[v].cell in result' {
      assert pred[v].cell in result;
    }
    forall v | v in pred && v in rank' && pred[v].From?
      ensures pred[v].cell in rank' && rank'[pred[v].cell] < rank'[v]
    {
      var u := pred[v].cell;
      assert u in result && u in rank && rank[u] < |result|;
      if v != tmp {
        assert v in rank;
      }
    }
  }

  /** Popping the top of the stack onto the result. */
  lemma PopStep(nodes: map<Coord, Node>, n: Coord, stack: seq<Coord>, result: seq<Coord>,
                pred: map<Coord, Parent>, rank: map<Coord, nat>)
    requires DfsCore(nodes, n, stack, result, pred, rank) && stack != []
    requires forall u, v :: u in result && Descends(nodes, u, v) ==> v in pred
    ensures var tmp := stack[|stack| - 1];
      && tmp !in result && tmp in nodes
      && DfsCore(nodes, n, stack[..|stack| - 1], result + [tmp], pred, rank[tmp := |result|])
      && ClosedExcept(nodes, result + [tmp], pred, tmp)
  {
    var tmp := stack[|stack| - 1];
    PopSets(nodes, stack, result, pred);
    PopRanks(result, pred, rank, tmp);
    forall u, v | u in result + [tmp] && u != tmp && Descends(nodes, u, v) ensures v in pred {
      assert u in result;
    }
    if result == [] {
      assert stack == [n];
    }
  }

  /** Pushing `i`, reached from the popped cell `tmp`. */
  lemma PushStep(nodes: map<Coord, Node>, n: Coord, stack: seq<Coord>, result: seq<Coord>,
                 pred: map<Coord, Parent>, rank: map<Coord, nat>, tmp: Coord, i: Coord)
    requires DfsCore(nodes, n, stack, result, pred, rank)
    requires tmp in result && Descends(nodes, tmp, i) && i !in pred
    ensures DfsCore(nodes, n, stack + [i], result, pred[i := From(tmp)], rank)
  {
    var stack' := stack + [i];
    assert Distinct(stack') by {
      forall a, b | 0 <= a < b < |stack'| ensures stack'[a] != stack'[b] {
        if b == |stack| {
          assert stack'[a] in stack;
        } else {
          assert stack'[a] == stack[a] && stack'[b] == stack[b];
        }
      }
    }
    assert i != n;
  }

  /** The full search invariant: the state above, and every descending step out of a popped cell leads to a cell already seen. */
  ghost predicate DfsState(nodes: map<Coord, Node>, n: Coord, stack: seq<Coord>, result: seq<Coord>,
                           pred: map<Coord, Parent>, rank: map<Coord, nat>) {
    && Closed(nodes) && DfsCore(nodes, n, stack, result, pred, rank)
    && forall u, v :: u in result && Descends(nodes, u, v) ==> v in pred
  }

  /**
   * The loop over the neighbours `fs` of the popped cell `tmp`: in list
   * order, each neighbour that is not on the stack, not yet explored and not
   * higher than `tmp` gets `tmp` as parent and is pushed.
   */
  ghost function PushAll(nodes: map<Coord, Node>, tmp: Coord, fs: seq<Coord>, stack: seq<Coord>,
                         result: seq<Coord>, pred: map<Coord, Parent>): (seq<Coord>, map<Coord, Parent>)
    requires tmp in nodes && forall k :: 0 <= k < |fs| ==> fs[k] in nodes
    decreases |fs|
  {
    if fs == [] then (stack, pred)
    else if fs[0] !in stack && fs[0] !in result && nodes[fs[0]].altitude <= nodes[tmp].altitude then
      PushAll(nodes, tmp, fs[1..], stack + [fs[0]], result, pred[fs[0] := From(tmp)])
    else PushAll(nodes, tmp, fs[1..], stack, result, pred)
  }

  /** Pushing the neighbours keeps the search state and records every cell one descending step from `tmp`. */
  lemma {:induction false} PushAllKeeps(nodes: map<Coord, Node>, n: Coord, tmp: Coord, fs: seq<Coord>,
                                        stack: seq<Coord>, result: seq<Coord>, pred: map<Coord, Parent>,
                                        rank: map<Coord, nat>)
    requires DfsCore(nodes, n, stack, result, pred, rank) && ClosedExcept(nodes, result, pred, tmp)
    requires tmp in result && tmp in nodes && forall k :: 0 <= k < |fs| ==> fs[k] in nodes && fs[k] in nodes[tmp].neighbors
    ensures var (stack', pred') := PushAll(nodes, tmp, fs, stack, result, pred);
      && DfsCore(nodes, n, stack', result, pred', rank) && ClosedExcept(nodes, result, pred', tmp)
      && (forall v :: v in fs && Descends(nodes, tmp, v) ==> v in pred')
      && pred.Keys <= pred'.Keys && (pred'.Keys == pred.Keys ==> stack' == stack)
    decreases |fs|
  {
    if fs != [] {
      var i := fs[0];
      assert fs == [i] + fs[1..];
      if i !in stack && i !in result && nodes[i].altitude <= nodes[tmp].altitude {
        PushStep(nodes, n, stack, result, pred, rank, tmp, i);
        PushAllKeeps(nodes, n, tmp, fs[1..], stack + [i], result, pred[i := From(tmp)], rank);
      } else {
        PushAllKeeps(nodes, n, tmp, fs[1..], stack, result, pred, rank);
      }
    }
  }

  /** Adding seen cells out of a finite table leaves fewer unseen ones. */
  lemma KeysShrink(all: set<Coord>, seen: set<Coord>, seen': set<Coord>)
    requires seen <= seen' <= all
    ensures seen' != seen ==> all - seen' < all - seen
  {
    if seen' != seen {
      var x :| x in seen' && x !in seen;
      assert x in all - seen && x !in all - seen';
    }
  }

  /**
   * The search loop of dfs_riviere from a given state: pop the top of the
   * stack onto the result, push its admissible neighbours, repeat until the
   * stack is empty.  It yields the popped cells, the parents and the popping ranks.
   */
  ghost function DfsFrom(nodes: map<Coord, Node>, n: Coord, stack: seq<Coord>, result: seq<Coord>,
                         pred: map<Coord, Parent>, rank: map<Coord, nat>): (r: (seq<Coord>, map<Coord, Parent>, map<Coord, nat>))
    requires DfsState(nodes, n, stack, result, pred, rank)
    ensures DfsState(nodes, n, [], r.0, r.1, r.2)
    decreases nodes.Keys - pred.Keys, |stack|
  {
    if stack == [] then (result, pred, rank)
    else
      var tmp := stack[|stack| - 1];
      var stack0, result', rank' := stack[..|stack| - 1], result + [tmp], rank[tmp := |result|];
      PopStep(nodes, n, stack, result, pred, rank);
      PushAllKeeps(nodes, n, tmp, nodes[tmp].neighbors, stack0, result', pred, rank');
      var next := PushAll(nodes, tmp, nodes[tmp].neighbors, stack0, result', pred);
      KeysShrink(nodes.Keys, pred.Keys, next.1.Keys);
      DfsFrom(nodes, n, next.0, result', next.1, rank')
  }

  /** The search of dfs_riviere from `n`: it explores a search tree rooted at `n`. */
  ghost function Dfs(nodes: map<Coord, Node>, n: Coord): (r: (seq<Coord>, map<Coord, Parent>, map<Coord, nat>))
    requires Closed(nodes) && n in nodes
    ensures SearchTree(nodes, n, r.0, r.1, r.2)
  {
    DfsFrom(nodes, n, [n], [], map[n := Source], map[])
  }

  /** The loop over the neighbours of the popped cell `tmp`, as PushAll describes it. */
  method PushChildren(nodes: map<Coord, Node>, tmp: Coord, visited: seq<Coord>, result: seq<Coord>,
                      pred: map<Coord, Parent>)
    returns (visited': seq<Coord>, pred': map<Coord, Parent>)
    requires Closed(nodes) && tmp in nodes
    ensures (visited', pred') == PushAll(nodes, tmp, nodes[tmp].neighbors, visited, result, pred)
  {
    visited', pred' := visited, pred;
    var fils := nodes[tmp].neighbors;
    for j := 0 to |fils|
      invariant PushAll(nodes, tmp, fils[j..], visited', result, pred') == PushAll(nodes, tmp, fils, visited, result, pred)
    {
      var i := fils[j];
      assert fils[j..][1..] == fils[j + 1..];
      if i !in visited' && i !in result && nodes[i].altitude <= nodes[tmp].altitude {
        pred' := pred'[i := From(tmp)];
        visited' := visited' + [i];
      }
    }
  }

  /** The part of dfs_riviere that explores: the stack `visited`, the popped cells `result` and the parents `pred`. */
  method Explore(nodes: map<Coord, Node>, n: Coord) returns (result: seq<Coord>, pred: map<Coord, Parent>, ghost rank: map<Coord, nat>)
    requires Closed(nodes) && n in nodes
    ensures (result, pred, rank) == Dfs(nodes, n)
    ensures SearchTree(nodes, n, result, pred, rank)
  {
    var visited := [n];
    result := [];
    pred := map[n := Source];
    rank := map[];
    while visited != []
      invariant DfsState(nodes, n, visited, result, pred, rank)
      invariant DfsFrom(nodes, n, visited, result, pred, rank) == Dfs(nodes, n)
      decreases nodes.Keys - pred.Keys, |visited|
    {
      PopStep(nodes, n, visited, result, pred, rank);
      var tmp := visited[|visited| - 1];
      visited := visited[..|visited| - 1];
      rank := rank[tmp := |result|];
      result := result + [tmp];
      ghost var seen0 := pred.Keys;
      PushAllKeeps(nodes, n, tmp, nodes[tmp].neighbors, visited, result, pred, rank);
      visited, pred := PushChildren(nodes, tmp, visited, result, pred);
      KeysShrink(nodes.Keys, seen0, pred.Keys);
    }
  }

  /** Every cell reached by a walk that never climbs from the source is explored. */
  lemma {:induction false} ExploreComplete(nodes: map<Coord, Node>, n: Coord, result: seq<Coord>, p: seq<Coord>)
    requires n in result && forall u, v :: u in result && Descends(nodes, u, v) ==> v in result
    requires DescendingWalk(nodes, p) && p[0] == n
    ensures p[|p| - 1] in result
    decreases |p|
  {
    if |p| > 1 {
      var q := p[..|p| - 1];
      assert DescendingWalk(nodes, q) by {
        forall k | 0 <= k < |q| - 1 ensures Descends(nodes, q[k], q[k + 1]) {
          assert q[k] == p[k] && q[k + 1] == p[k + 1];
        }
      }
      ExploreComplete(nodes, n, result, q);
      assert Descends(nodes, p[|p| - 2], p[|p| - 1]);
    }
  }

  /** The search explores exactly the cells a walk that never climbs reaches from the source. */
  lemma Explored(nodes: map<Coord, Node>, n: Coord, result: seq<Coord>, pred: map<Coord, Parent>,
                 rank: map<Coord, nat>, v: Coord)
    requires |result| >= 1 && result[0] == n && forall x :: x in pred <==> x in result
    requires Ranked(pred, rank) && TreeLinks(nodes, n, pred)
    requires forall u, w :: u in result && Descends(nodes, u, w) ==> w in result
    ensures v in result <==> exists p :: DescendingWalk(nodes, p) && p[0] == n && p[|p| - 1] == v
  {
    if v in result {
      ChainDescends(nodes, n, pred, rank, v);
      var c := Chain(pred, rank, v);
      var p := Reverse(c);
      assert DescendingWalk(nodes, p) by {
        forall k | 0 <= k < |p| - 1 ensures Descends(nodes, p[k], p[k + 1]) {
          assert p[k] == c[|c| - 1 - k] && p[k + 1] == c[|c| - 1 - (k + 1)];
        }
      }
      assert p[0] == n && p[|p| - 1] == v;
    }
    forall p | DescendingWalk(nodes, p) && p[0] == n && p[|p| - 1] == v ensures v in result {
      ExploreComplete(nodes, n, result, p);
    }
  }

  // ---------------------------------------------------------------------
  // The main river.

  /** The inner loop of dfs_riviere's chain search: follow pred from `i` until the source marker. */
  method ChainOf(pred: map<Coord, Parent>, ghost rank: map<Coord, nat>, i0: Coord) returns (listeTmp: seq<Coord>)
    requires Ranked(pred, rank) && i0 in pred
    ensures listeTmp == Chain(pred, rank, i0)
  {
    var i := i0;
    listeTmp := [];
    while pred[i] != Source
      invariant i in pred && listeTmp + Chain(pred, rank, i) == Chain(pred, rank, i0)
      decreases rank[i]
    {
      assert Chain(pred, rank, i) == [i] + Chain(pred, rank, pred[i].cell);
      listeTmp := listeTmp + [i];
      i := pred[i].cell;
    }
    listeTmp := listeTmp + [i];
  }

  /**
   * The loop over `result` in dfs_riviere: each cell's chain back to the
   * source is built, and a chain replaces the best so far only when strictly
   * longer, so the first longest chain wins.
   */
  method LongestChain(result: seq<Coord>, pred: map<Coord, Parent>, ghost rank: map<Coord, nat>)
    returns (liste: seq<Coord>, ghost best: nat)
    requires Ranked(pred, rank) && forall v :: v in result ==> v in pred
    ensures result == [] ==> liste == []
    ensures result != [] ==>
      && best < |result| && liste == Chain(pred, rank, result[best])
      && (forall j :: 0 <= j < |result| ==> |Chain(pred, rank, result[j])| <= |liste|)
      && (forall j :: 0 <= j < best ==> |Chain(pred, rank, result[j])| < |liste|)
  {
    liste := [];
    best := 0;
    for k := 0 to |result|
      invariant best <= k && (k == 0 ==> liste == [])
      invariant k > 0 ==> best < k && liste == Chain(pred, rank, result[best])
      invariant forall j :: 0 <= j < k ==> |Chain(pred, rank, result[j])| <= |liste|
      invariant forall j :: 0 <= j < best ==> |Chain(pred, rank, result[j])| < |liste|
    {
      var listeTmp := ChainOf(pred, rank, result[k]);
      if |listeTmp| > |liste| {
        liste := listeTmp;
        best := k;
      }
    }
  }

  /** A river bed from `n`: distinct cells of the table, each not higher than the next, the last being `n`. */
  ghost predicate RiverBed(nodes: map<Coord, Node>, n: Coord, bed: seq<Coord>) {
    && |bed| >= 1 && bed[|bed| - 1] == n && Distinct(bed)
    && (forall k :: 0 <= k < |bed| ==> bed[k] in nodes)
    && forall k :: 0 <= k < |bed| - 1 ==> Descends(nodes, bed[k + 1], bed[k])
  }

  /** No cell of a river bed lies higher than its source. */
  lemma {:induction false} RiverBelowSource(nodes: map<Coord, Node>, n: Coord, bed: seq<Coord>, k: nat)
    requires RiverBed(nodes, n, bed) && k < |bed|
    ensures nodes[bed[k]].altitude <= nodes[n].altitude
    decreases |bed| - k
  {
    if k < |bed| - 1 {
      RiverBelowSource(nodes, n, bed, k + 1);
      assert Descends(nodes, bed[k + 1], bed[k]);
    }
  }

  /** What the search of dfs_riviere leaves: the explored cells in popping order, `n` first, and their search tree. */
  ghost predicate SearchTree(nodes: map<Coord, Node>, n: Coord, result: seq<Coord>,
                             pred: map<Coord, Parent>, rank: map<Coord, nat>) {
    && Distinct(result) && |result| >= 1 && result[0] == n
    && (forall v :: v in pred <==> v in result)
    && Ranked(pred, rank) && TreeLinks(nodes, n, pred)
    && forall u, v :: u in result && Descends(nodes, u, v) ==> v in result
  }

  /** `liste` is the chain of `result[best]`, the first of the longest chains in the order of `result`. */
  ghost predicate FirstLongest(result: seq<Coord>, pred: map<Coord, Parent>, rank: map<Coord, nat>,
                               best: nat, liste: seq<Coord>)
    requires Ranked(pred, rank) && forall v :: v in result ==> v in pred
  {
    && best < |result| && liste == Chain(pred, rank, result[best])
    && (forall j :: 0 <= j < |result| ==> |Chain(pred, rank, result[j])| <= |liste|)
    && forall j :: 0 <= j < best ==> |Chain(pred, rank, result[j])| < |liste|
  }

  /** Two first longest chains of the same search tree are the same chain. */
  lemma FirstLongestUnique(result: seq<Coord>, pred: map<Coord, Parent>, rank: map<Coord, nat>,
                           best: nat, liste: seq<Coord>, best': nat, liste': seq<Coord>)
    requires Ranked(pred, rank) && forall v :: v in result ==> v in pred
    requires FirstLongest(result, pred, rank, best, liste) && FirstLongest(result, pred, rank, best', liste')
    ensures best == best' && liste == liste'
  {
  }

  /**
   * `liste` is the main river dfs_riviere picks from `n`: the first longest
   * chain of the search tree that the search from `n` builds.
   */
  ghost predicate MainRiverOf(nodes: map<Coord, Node>, n: Coord, liste: seq<Coord>) {
    && Closed(nodes) && n in nodes
    && var (result, pred, rank) := Dfs(nodes, n);
       exists best :: FirstLongest(result, pred, rank, best, liste)
  }

  /** Given the table and the source, the main river is determined. */
  lemma MainRiverUnique(nodes: map<Coord, Node>, n: Coord, liste: seq<Coord>, liste': seq<Coord>)
    requires MainRiverOf(nodes, n, liste) && MainRiverOf(nodes, n, liste')
    ensures liste == liste'
  {
    var (result, pred, rank) := Dfs(nodes, n);
    var best :| FirstLongest(result, pred, rank, best, liste);
    var best' :| FirstLongest(result, pred, rank, best', liste');
    FirstLongestUnique(result, pred, rank, best, liste, best', liste');
  }

  /**
   * Lines 14-51 of dfs_riviere: explore from `n`, then take the first longest
   * chain of the search tree; it is a river bed from `n`.
   */
  method MainRiver(nodes: map<Coord, Node>, n: Coord)
    returns (liste: seq<Coord>, ghost result: seq<Coord>, ghost pred: map<Coord, Parent>,
             ghost rank: map<Coord, nat>, ghost best: nat)
    requires Closed(nodes) && n in nodes
    ensures (result, pred, rank) == Dfs(nodes, n)
    ensures SearchTree(nodes, n, result, pred, rank) && FirstLongest(result, pred, rank, best, liste)
    ensures MainRiverOf(nodes, n, liste)
    ensures RiverBed(nodes, n, liste)
  {
    var explored, parents, ranks := Explore(nodes, n);
    result, pred, rank := explored, parents, ranks;
    liste, best := LongestChain(explored, parents, ranks);
    ChainDescends(nodes, n, pred, rank, result[best]);
    forall k | 0 <= k < |liste| ensures liste[k] in nodes {
      if k < |liste| - 1 {
        assert Descends(nodes, liste[k + 1], liste[k]);
      }
    }
    assert SearchTree(nodes, n, result, pred, rank) && FirstLongest(result, pred, rank, best, liste);
  }

  /** Two tables with the same cells, altitudes and neighbour lists; only terrain may differ. */
  ghost predicate SameRelief(nodes: map<Coord, Node>, nodes': map<Coord, Node>) {
    && nodes.Keys == nodes'.Keys
    && forall c :: c in nodes ==> nodes'[c].altitude == nodes[c].altitude && nodes'[c].neighbors == nodes[c].neighbors
  }

  /** The neighbour loop reads altitudes and neighbour lists only. */
  lemma {:induction false} PushAllSameRelief(nodes: map<Coord, Node>, nodes': map<Coord, Node>, tmp: Coord, fs: seq<Coord>,
                                             stack: seq<Coord>, result: seq<Coord>, pred: map<Coord, Parent>)
    requires SameRelief(nodes, nodes')
    requires tmp in nodes && forall k :: 0 <= k < |fs| ==> fs[k] in nodes
    ensures PushAll(nodes, tmp, fs, stack, result, pred) == PushAll(nodes', tmp, fs, stack, result, pred)
    decreases |fs|
  {
    if fs != [] {
      PushAllSameRelief(nodes, nodes', tmp, fs[1..], stack + [fs[0]], result, pred[fs[0] := From(tmp)]);
      PushAllSameRelief(nodes, nodes', tmp, fs[1..], stack, result, pred);
    }
  }

  /** The search reads altitudes and neighbour lists only. */
  lemma {:induction false} DfsFromSameRelief(nodes: map<Coord, Node>, nodes': map<Coord, Node>, n: Coord, stack: seq<Coord>,
                                             result: seq<Coord>, pred: map<Coord, Parent>, rank: map<Coord, nat>)
    requires SameRelief(nodes, nodes')
    requires DfsState(nodes, n, stack, result, pred, rank) && DfsState(nodes', n, stack, result, pred, rank)
    ensures DfsFrom(nodes, n, stack, result, pred, rank) == DfsFrom(nodes', n, stack, result, pred, rank)
    decreases nodes.Keys - pred.Keys, |stack|
  {
    if stack != [] {
      var tmp := stack[|stack| - 1];
      var stack0, result', rank' := stack[..|stack| - 1], result + [tmp], rank[tmp := |result|];
      PopStep(nodes, n, stack, result, pred, rank);
      PopStep(nodes', n, stack, result, pred, rank);
      PushAllKeeps(nodes, n, tmp, nodes[tmp].neighbors, stack0, result', pred, rank');
      PushAllKeeps(nodes', n, tmp, nodes[tmp].neighbors, stack0, result', pred, rank');
      PushAllSameRelief(nodes, nodes', tmp, nodes[tmp].neighbors, stack0, result', pred);
      var next := PushAll(nodes, tmp, nodes[tmp].neighbors, stack0, result', pred);
      KeysShrink(nodes.Keys, pred.Keys, next.1.Keys);
      DfsFromSameRelief(nodes, nodes', n, next.0, result', next.1, rank');
    }
  }

  /** The main river depends on altitudes and neighbours only, so carving water does not change it. */
  lemma MainRiverSameRelief(nodes: map<Coord, Node>, nodes': map<Coord, Node>, n: Coord, liste: seq<Coord>)
    requires SameRelief(nodes, nodes')
    ensures MainRiverOf(nodes, n, liste) <==> MainRiverOf(nodes', n, liste)
  {
    assert forall u, v :: Descends(nodes, u, v) <==> Descends(nodes', u, v);
    if Closed(nodes) && n in nodes {
      assert Closed(nodes') && n in nodes';
      assert DfsState(nodes, n, [n], [], map[n := Source], map[]);
      assert DfsState(nodes', n, [n], [], map[n := Source], map[]);
      DfsFromSameRelief(nodes, nodes', n, [n], [], map[n := Source], map[]);
      assert Dfs(nodes, n) == Dfs(nodes', n);
    }
  }

  /** Riviere: the carver, working on the grid it was given. */
  class Riviere {
    const grid: HexGraph

    constructor (grid: HexGraph)
      ensures this.grid == grid
    {
      this.grid := grid;
    }

    /**
     * dfs_riviere(n): explore from `n`, take the first longest chain of the
     * search tree, and turn its cells to water when it has more than two;
     * `ok` reports whether a river was carved.
     */
    method DfsRiviere(n: Coord)
      returns (ok: bool, ghost river: seq<Coord>, ghost result: seq<Coord>, ghost pred: map<Coord, Parent>,
               ghost rank: map<Coord, nat>, ghost best: nat)
      requires WellFormed(grid.nodes, grid.keys) && n in grid.nodes
      modifies grid
      ensures (result, pred, rank) == Dfs(old(grid.nodes), n)
      ensures SearchTree(old(grid.nodes), n, result, pred, rank) && FirstLongest(result, pred, rank, best, river)
      ensures MainRiverOf(old(grid.nodes), n, river) && RiverBed(old(grid.nodes), n, river)
      ensures ok <==> |river| > 2
      ensures grid.nodes.Keys == old(grid.nodes).Keys
      ensures forall c :: c in grid.nodes ==>
                grid.nodes[c] == if ok && c in river then old(grid.nodes)[c].(terrain := Water) else old(grid.nodes)[c]
      ensures WellFormed(grid.nodes, grid.keys)
    {
      var liste;
      liste, result, pred, rank, best := MainRiver(grid.nodes, n);
      river := liste;
      if |liste| <= 2 {
        return false, river, result, pred, rank, best;
      }
      Carve(liste);
      ok := true;
    }

    /** The last loop of dfs_riviere: every cell of the chosen chain becomes water. */
    method Carve(liste: seq<Coord>)
      requires WellFormed(grid.nodes, grid.keys) && forall k :: 0 <= k < |liste| ==> liste[k] in grid.nodes
      modifies grid
      ensures grid.nodes.Keys == old(grid.nodes).Keys && WellFormed(grid.nodes, grid.keys)
      ensures forall c :: c in grid.nodes ==>
                grid.nodes[c] == if c in liste then old(grid.nodes)[c].(terrain := Water) else old(grid.nodes)[c]
    {
      ghost var nodes := grid.nodes;
      for k := 0 to |liste|
        invariant grid.nodes.Keys == nodes.Keys
        invariant forall c :: c in nodes ==>
                    grid.nodes[c] == if c in liste[..k] then nodes[c].(terrain := Water) else nodes[c]
      {
        assert liste[..k + 1] == liste[..k] + [liste[k]];
        var i := liste[k];
        grid.nodes := grid.nodes[i := grid.nodes[i].(terrain := Water)];
      }
      assert liste[..|liste|] == liste;
    }

    /** One pass of placer_riviere's loop: dfs_riviere from `point`, seen against the table before any river. */
    method Attempt(point: Coord, ghost nodes0: map<Coord, Node>, ghost rivers: seq<seq<Coord>>)
      returns (ok: bool, ghost river: seq<Coord>)
      requires WellFormed(grid.nodes, grid.keys) && point in grid.nodes && WateredBy(nodes0, grid.nodes, rivers)
      modifies grid
      ensures WellFormed(grid.nodes, grid.keys) && WateredBy(nodes0, grid.nodes, rivers + [river])
      ensures MainRiverOf(nodes0, point, river) && (ok <==> |river| > 2)
    {
      ghost var before := grid.nodes;
      Watered(nodes0, before, rivers);
      ghost var result, pred, rank, best;
      ok, river, result, pred, rank, best := DfsRiviere(point);
      MainRiverSameRelief(nodes0, before, point, river);
      WaterStep(nodes0, before, grid.nodes, rivers, river, ok);
    }

    /**
     * placer_riviere(height, width): draw cells until 1 + height * width / 50
     * rivers have been carved.  The draws are an input; `used` counts the
     * draws taken, `rivers[k]` is the main river found from `draws[k]`, and
     * only those of more than two cells are carved and counted.
     */
    method PlaceRivers(height: nat, width: nat, draws: seq<Coord>)
      returns (placed: nat, used: nat, ghost rivers: seq<seq<Coord>>)
      requires WellFormed(grid.nodes, grid.keys)
      requires forall c :: InGrid(height, width, c) ==> c in grid.nodes
      requires forall k :: 0 <= k < |draws| ==> InGrid(height, width, draws[k])
      modifies grid
      ensures Placing(old(grid.nodes), draws, NbRivers(height, width), placed, used, rivers)
      ensures placed < NbRivers(height, width) ==> used == |draws|
      ensures WellFormed(grid.nodes, grid.keys) && WateredBy(old(grid.nodes), grid.nodes, rivers)
    {
      ghost var nodes0 := grid.nodes;
      var nbRiviere := NbRivers(height, width);
      placed, used, rivers := 0, 0, [];
      while placed < nbRiviere && used < |draws|
        invariant Placing(nodes0, draws, nbRiviere, placed, used, rivers)
        invariant WellFormed(grid.nodes, grid.keys) && WateredBy(nodes0, grid.nodes, rivers)
      {
        var point := draws[used];
        var ok;
        ghost var river;
        ok, river := Attempt(point, nodes0, rivers);
        PlacingStep(nodes0, draws, nbRiviere, placed, used, rivers, river, ok);
        placed, used, rivers := if ok then placed + 1 else placed, used + 1, rivers + [river];
      }
    }
  }

  /** The state of placer_riviere's loop: `used` draws taken, `placed` of their rivers carved, at most `nb`. */
  ghost predicate Placing(nodes0: map<Coord, Node>, draws: seq<Coord>, nb: nat, placed: nat, used: nat, rivers: seq<seq<Coord>>) {
    && placed <= used <= |draws| && placed <= nb && |rivers| == used
    && RiversFrom(nodes0, draws, rivers)
    && placed == Carved(rivers)
    && (placed == nb ==> used > 0 && |rivers[used - 1]| > 2)
  }

  /** One pass of placer_riviere's loop, on the draw `draws[used]`, keeps the loop state. */
  lemma PlacingStep(nodes0: map<Coord, Node>, draws: seq<Coord>, nb: nat, placed: nat, used: nat,
                    rivers: seq<seq<Coord>>, river: seq<Coord>, ok: bool)
    requires Placing(nodes0, draws, nb, placed, used, rivers) && placed < nb && used < |draws|
    requires MainRiverOf(nodes0, draws[used], river) && (ok <==> |river| > 2)
    ensures Placing(nodes0, draws, nb, if ok then placed + 1 else placed, used + 1, rivers + [river])
  {
    RiversFromSnoc(nodes0, draws, rivers, river);
    CarvedSnoc(rivers, river);
  }

  /** `rivers[k]` is the main river found from the k-th draw, for every draw taken. */
  ghost predicate RiversFrom(nodes0: map<Coord, Node>, draws: seq<Coord>, rivers: seq<seq<Coord>>) {
    |rivers| <= |draws| && forall k :: 0 <= k < |rivers| ==> MainRiverOf(nodes0, draws[k], rivers[k])
  }

  lemma RiversFromSnoc(nodes0: map<Coord, Node>, draws: seq<Coord>, rivers: seq<seq<Coord>>, river: seq<Coord>)
    requires RiversFrom(nodes0, draws, rivers) && |rivers| < |draws| && MainRiverOf(nodes0, draws[|rivers|], river)
    ensures RiversFrom(nodes0, draws, rivers + [river])
  {
    var rivers' := rivers + [river];
    forall k | 0 <= k < |rivers'| ensures MainRiverOf(nodes0, draws[k], rivers'[k]) {
      if k < |rivers| {
        assert rivers'[k] == rivers[k];
      }
    }
  }

  /** The number of rivers of more than two cells, the ones dfs_riviere carves and placer_riviere counts. */
  function Carved(rivers: seq<seq<Coord>>): (r: nat)
    ensures r <= |rivers|
  {
    if rivers == [] then 0
    else Carved(rivers[..|rivers| - 1]) + (if |rivers[|rivers| - 1]| > 2 then 1 else 0)
  }

  lemma CarvedSnoc(rivers: seq<seq<Coord>>, river: seq<Coord>)
    ensures Carved(rivers + [river]) == Carved(rivers) + (if |river| > 2 then 1 else 0)
  {
    assert (rivers + [river])[..|rivers|] == rivers;
  }

  /** The cells of the carved rivers. */
  ghost function WaterCells(rivers: seq<seq<Coord>>): set<Coord> {
    if rivers == [] then {}
    else WaterCells(rivers[..|rivers| - 1]) + (var last := rivers[|rivers| - 1]; if |last| > 2 then set k | 0 <= k < |last| :: last[k] else {})
  }

  /** A cell is turned to water exactly when it lies on one of the rivers of more than two cells. */
  lemma {:induction false} WaterCellsMembers(rivers: seq<seq<Coord>>, c: Coord)
    ensures c in WaterCells(rivers) <==> exists k :: 0 <= k < |rivers| && |rivers[k]| > 2 && c in rivers[k]
    decreases |rivers|
  {
    if rivers != [] {
      var init := rivers[..|rivers| - 1];
      WaterCellsMembers(init, c);
      if exists k :: 0 <= k < |rivers| && |rivers[k]| > 2 && c in rivers[k] {
        var k :| 0 <= k < |rivers| && |rivers[k]| > 2 && c in rivers[k];
        if k < |init| {
          assert init[k] == rivers[k];
        }
      }
      if exists k :: 0 <= k < |init| && |init[k]| > 2 && c in init[k] {
        var k :| 0 <= k < |init| && |init[k]| > 2 && c in init[k];
        assert rivers[k] == init[k];
      }
    }
  }

  /** The table after some rivers: the cells of the carved ones are water, everything else is as it was. */
  ghost predicate WateredBy(nodes0: map<Coord, Node>, nodes: map<Coord, Node>, rivers: seq<seq<Coord>>) {
    && nodes.Keys == nodes0.Keys
    && forall c :: c in nodes ==>
         nodes[c] == if c in WaterCells(rivers) then nodes0[c].(terrain := Water) else nodes0[c]
  }

  lemma Watered(nodes0: map<Coord, Node>, nodes: map<Coord, Node>, rivers: seq<seq<Coord>>)
    requires WateredBy(nodes0, nodes, rivers)
    ensures SameRelief(nodes0, nodes)
  {
    forall c | c in nodes0 ensures nodes[c].altitude == nodes0[c].altitude && nodes[c].neighbors == nodes0[c].neighbors {
      assert c in nodes;
    }
  }

  /** Carving one more river, or none when it is too short, extends the watered cells by its cells. */
  lemma WaterStep(nodes0: map<Coord, Node>, before: map<Coord, Node>, after: map<Coord, Node>,
                  rivers: seq<seq<Coord>>, river: seq<Coord>, ok: bool)
    requires WateredBy(nodes0, before, rivers)
    requires after.Keys == before.Keys && (ok <==> |river| > 2)
    requires forall c :: c in after ==> after[c] == if ok && c in river then before[c].(terrain := Water) else before[c]
    ensures WateredBy(nodes0, after, rivers + [river])
  {
    var rivers' := rivers + [river];
    assert rivers'[..|rivers|] == rivers;
    forall c | c in after
      ensures after[c] == if c in WaterCells(rivers') then nodes0[c].(terrain := Water) else nodes0[c]
    {
      assert c in before;
    }
  }

  /** nb_riviere: 1 + int(height * width / 50); for non-negative sizes the truncation is integer division. */
  function NbRivers(height: nat, width: nat): (r: nat)
    ensures r >= 1 && (r - 1) * 50 <= height * width < r * 50
  {
    1 + height * width / 50
  }
}
