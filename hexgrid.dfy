/**
 * The hexagonal grid: cells addressed by (row, column) on a height x width
 * rectangle, with "offset coordinates" in which the six neighbours of a cell
 * depend on the parity of its column.  A cell carries its terrain, its
 * altitude and the list of its neighbours, computed once when the graph is
 * built.
 */
module Hex {
  import opened Seqs

  /** The five kinds of cell: eau, herbe, montagne, neige, chemin. */
  datatype Terrain = Water | Grass | Mountain | Snow | Road

  /** (row, column); the grid's methods call them `x` and `y`. */
  type Coord = (int, int)

  /** One entry of the node table; `neighbors` is empty until the graph is built. */
  datatype Node = Node(terrain: Terrain, altitude: int, neighbors: seq<Coord>)

  /** A route: the cells from the destination back to the origin, and its cost. */
  datatype Route = Route(path: seq<Coord>, cost: real)

  predicate InGrid(height: int, width: int, c: Coord) {
    0 <= c.0 < height && 0 <= c.1 < width
  }

  /** The offset table of a cell in column `y`, as (row, column) steps. */
  function Offsets(y: int): seq<Coord> {
    if y % 2 == 0 then [(1, 0), (0, 1), (-1, 1), (-1, 0), (-1, -1), (0, -1)]
    else [(1, 0), (1, 1), (0, 1), (-1, 0), (0, -1), (1, -1)]
  }

  /** The six cells around (x, y) before the bounds filter. */
  function Candidates(x: int, y: int): seq<Coord> {
    if y % 2 == 0 then [(x + 1, y), (x, y + 1), (x - 1, y + 1), (x - 1, y), (x - 1, y - 1), (x, y - 1)]
    else [(x + 1, y), (x + 1, y + 1), (x, y + 1), (x - 1, y), (x, y - 1), (x + 1, y - 1)]
  }

  /** The candidates are the offset table applied to (x, y), in table order. */
  lemma CandidatesFollowTable(x: int, y: int)
    ensures |Candidates(x, y)| == |Offsets(y)| == 6
    ensures forall k :: 0 <= k < 6 ==> Candidates(x, y)[k] == (x + Offsets(y)[k].0, y + Offsets(y)[k].1)
    ensures Distinct(Candidates(x, y)) && (x, y) !in Candidates(x, y)
  {
  }

  /** The in-grid part of `cs`, in the order of `cs`. */
  function KeepInGrid(height: int, width: int, cs: seq<Coord>): seq<Coord> {
    if cs == [] then []
    else if InGrid(height, width, cs[0]) then [cs[0]] + KeepInGrid(height, width, cs[1..])
    else KeepInGrid(height, width, cs[1..])
  }

  /** The filter keeps exactly the in-grid cells, in their order, and keeps distinctness. */
  lemma {:induction false} KeepInGridShape(height: int, width: int, cs: seq<Coord>)
    ensures var r := KeepInGrid(height, width, cs);
      && |r| <= |cs|
      && (forall c :: c in r <==> c in cs && InGrid(height, width, c))
      && IsSubseq(r, cs)
      && (Distinct(cs) ==> Distinct(r))
    decreases |cs|
  {
    if cs != [] {
      KeepInGridShape(height, width, cs[1..]);
      var rest := KeepInGrid(height, width, cs[1..]);
      assert cs == [cs[0]] + cs[1..];
      if InGrid(height, width, cs[0]) {
        DistinctCons(cs[0], rest);
      }
    }
  }

  /**
   * The neighbours of (x, y): the in-grid cells among its candidates, in the
   * order of the offset table chosen by the parity of the column.
   */
  function Neighbours(height: int, width: int, x: int, y: int): (r: seq<Coord>)
    ensures forall c :: c in r ==> InGrid(height, width, c)
  {
    KeepInGridShape(height, width, Candidates(x, y));
    KeepInGrid(height, width, Candidates(x, y))
  }

  /**
   * A neighbour list holds at most six cells, without repeats and without
   * (x, y) itself; they are exactly the in-grid candidates, in table order.
   */
  lemma NeighboursShape(height: int, width: int, x: int, y: int)
    ensures var r := Neighbours(height, width, x, y);
      && |r| <= 6 && Distinct(r) && (x, y) !in r
      && (forall c :: c in r <==> InGrid(height, width, c) && c in Candidates(x, y))
      && IsSubseq(r, Candidates(x, y))
  {
    CandidatesFollowTable(x, y);
    KeepInGridShape(height, width, Candidates(x, y));
  }

  /** Only the parity of the column selects the table. */
  lemma NeighboursDependOnParity(height: int, width: int, x: int, y: int)
    ensures Offsets(y) == Offsets(y % 2)
    ensures y % 2 == 0 ==> Neighbours(height, width, x, y) == KeepInGrid(height, width,
      [(x + 1, y), (x, y + 1), (x - 1, y + 1), (x - 1, y), (x - 1, y - 1), (x, y - 1)])
    ensures y % 2 == 1 ==> Neighbours(height, width, x, y) == KeepInGrid(height, width,
      [(x + 1, y), (x + 1, y + 1), (x, y + 1), (x - 1, y), (x, y - 1), (x + 1, y - 1)])
  {
  }

  /** Adjacency between cells of the grid is symmetric, although the two offset tables differ. */
  lemma NeighbourSymmetric(height: int, width: int, a: Coord, b: Coord)
    requires InGrid(height, width, a) && InGrid(height, width, b)
    ensures b in Neighbours(height, width, a.0, a.1) <==> a in Neighbours(height, width, b.0, b.1)
  {
    NeighboursShape(height, width, a.0, a.1);
    NeighboursShape(height, width, b.0, b.1);
    if b in Candidates(a.0, a.1) {
      CandidatesMirror(a, b);
    }
    if a in Candidates(b.0, b.1) {
      CandidatesMirror(b, a);
    }
  }

  lemma CandidatesMirror(a: Coord, b: Coord)
    requires b in Candidates(a.0, a.1)
    ensures a in Candidates(b.0, b.1)
  {
    if a.1 % 2 == 0 {
      assert b.1 == a.1 ==> b.1 % 2 == 0;
      assert b.1 != a.1 ==> b.1 % 2 == 1;
    } else {
      assert b.1 == a.1 ==> b.1 % 2 == 1;
      assert b.1 != a.1 ==> b.1 % 2 == 0;
    }
  }

  /** On a grid of at least 2 x 2 every cell has between 2 and 6 neighbours. */
  lemma NeighbourCountBounds(height: int, width: int, x: int, y: int)
    requires height >= 2 && width >= 2 && InGrid(height, width, (x, y))
    ensures 2 <= |Neighbours(height, width, x, y)| <= 6
  {
    var r := Neighbours(height, width, x, y);
    NeighboursShape(height, width, x, y);
    var vertical := if x + 1 < height then (x + 1, y) else (x - 1, y);
    var horizontal := if y + 1 < width then (x, y + 1) else (x, y - 1);
    assert vertical in Candidates(x, y) && horizontal in Candidates(x, y);
    TwoMembers(r, vertical, horizontal);
  }

  /** The only cell of a 1 x 1 grid has no neighbour. */
  lemma SingleCellHasNoNeighbour()
    ensures Neighbours(1, 1, 0, 0) == []
  {
  }

  /** Row `i` of the grid, in column order. */
  function Row(i: int, width: nat): seq<Coord> {
    seq(width, j => (i, j))
  }

  /** All cells of a height x width grid, row after row. */
  function RowMajor(height: nat, width: nat): seq<Coord> {
    if height == 0 then [] else RowMajor(height - 1, width) + Row(height - 1, width)
  }

  lemma {:induction false} RowMajorCells(height: nat, width: nat)
    ensures |RowMajor(height, width)| == height * width
    ensures Distinct(RowMajor(height, width))
    ensures forall c :: c in RowMajor(height, width) <==> InGrid(height, width, c)
  {
    if height > 0 {
      RowMajorCells(height - 1, width);
      var prev, row := RowMajor(height - 1, width), Row(height - 1, width);
      assert RowMajor(height, width) == prev + row;
      forall c | c in prev + row
        ensures InGrid(height, width, c)
      {
        if c in prev { assert InGrid(height - 1, width, c); }
      }
      forall c | InGrid(height, width, c)
        ensures c in prev + row
      {
        if c.0 == height - 1 {
          assert row[c.1] == c;
        } else {
          assert InGrid(height - 1, width, c);
        }
      }
      forall i, j | 0 <= i < j < |prev + row|
        ensures (prev + row)[i] != (prev + row)[j]
      {
        if j >= |prev| && i < |prev| {
          assert (prev + row)[i] in prev;
          assert (prev + row)[i].0 < height - 1;
        }
      }
      assert height * width == (height - 1) * width + width;
    }
  }

  lemma MulMono(a: nat, b: nat, width: nat)
    requires a <= b
    ensures a * width <= b * width
  {
  }

  /** The first |keys| draws fill the table at `keys`, in order. */
  ghost predicate Filled(nodes: map<Coord, Node>, keys: seq<Coord>, draws: seq<(Terrain, int)>) {
    && |keys| <= |draws|
    && (forall c :: c in nodes ==> c in keys)
    && forall k :: 0 <= k < |keys| ==> keys[k] in nodes && nodes[keys[k]] == Node(draws[k].0, draws[k].1, [])
  }

  /** The inner loop of genererGrille: the cells of row `i`, column after column. */
  method FillRow(i: nat, width: nat, draws: seq<(Terrain, int)>, nodes: map<Coord, Node>, keys: seq<Coord>)
    returns (nodes': map<Coord, Node>, keys': seq<Coord>)
    requires keys == RowMajor(i, width) && |keys| + width <= |draws|
    requires Filled(nodes, keys, draws)
    ensures keys' == RowMajor(i + 1, width) && Filled(nodes', keys', draws)
  {
    RowMajorCells(i, width);
    nodes', keys' := nodes, keys;
    for j := 0 to width
      invariant keys' == RowMajor(i, width) + Row(i, width)[..j]
      invariant |keys'| == |keys| + j
      invariant Filled(nodes', keys', draws)
    {
      var d := draws[|keys'|];
      assert (i, j) !in keys' by {
        assert (i, j) !in RowMajor(i, width);
        assert forall c :: c in Row(i, width)[..j] ==> c.1 < j;
      }
      nodes' := nodes'[(i, j) := Node(d.0, d.1, [])];
      keys' := keys' + [(i, j)];
      assert Row(i, width)[..j + 1] == Row(i, width)[..j] + [(i, j)];
    }
    assert Row(i, width)[..width] == Row(i, width);
  }

  /**
   * genererGrille: fill the node table row after row, drawing for each cell a
   * terrain and an altitude.  `draws` holds the generator's answers, one
   * (terrain, altitude) pair per cell in the order the loops ask for them; the
   * altitude draw is uniform over [0, 1000].
   */
  method GenerateGrid(height: nat, width: nat, draws: seq<(Terrain, int)>)
    returns (nodes: map<Coord, Node>, keys: seq<Coord>)
    requires |draws| == height * width
    requires forall k :: 0 <= k < |draws| ==> 0 <= draws[k].1 <= 1000
    ensures keys == RowMajor(height, width) && |keys| == |draws|
    ensures forall c :: c in nodes <==> c in keys
    ensures forall c :: c in nodes <==> InGrid(height, width, c)
    ensures forall k :: 0 <= k < |keys| ==> nodes[keys[k]] == Node(draws[k].0, draws[k].1, [])
    ensures forall c :: c in nodes ==> 0 <= nodes[c].altitude <= 1000
  {
    nodes, keys := map[], [];
    var i := 0;
    while i < height
      invariant 0 <= i <= height
      invariant keys == RowMajor(i, width) && |keys| == i * width
      invariant Filled(nodes, keys, draws)
    {
      RowMajorCells(i, width);
      assert (i + 1) * width == i * width + width;
      MulMono(i + 1, height, width);
      nodes, keys := FillRow(i, width, draws, nodes, keys);
      RowMajorCells(i + 1, width);
      i := i + 1;
    }
    RowMajorCells(height, width);
    forall c | c in nodes ensures 0 <= nodes[c].altitude <= 1000 {
      var k :| 0 <= k < |keys| && keys[k] == c;
    }
  }

  /** Every cell of `done` is in the table with its neighbour list attached. */
  ghost predicate Attached(height: int, width: int, r: map<Coord, Node>, done: set<Coord>) {
    forall c {:trigger c in done} :: c in done ==> c in r && r[c].neighbors == Neighbours(height, width, c.0, c.1)
  }

  /** Only the neighbour lists differ between the two tables. */
  ghost predicate SameCells(r: map<Coord, Node>, nodes: map<Coord, Node>) {
    && r.Keys == nodes.Keys
    && forall c :: c in r ==> r[c].terrain == nodes[c].terrain && r[c].altitude == nodes[c].altitude
  }

  /** After k rounds of the loop: the first k keys have their lists and nothing else differs. */
  ghost predicate AttachedUpTo(height: int, width: int, nodes: map<Coord, Node>, keys: seq<Coord>,
                               r: map<Coord, Node>, done: set<Coord>, k: int) {
    && 0 <= k <= |keys| && SameCells(r, nodes) && Attached(height, width, r, done)
    && forall j :: 0 <= j < k ==> keys[j] in done
  }

  lemma AttachOne(height: int, width: int, nodes: map<Coord, Node>, keys: seq<Coord>,
                  r: map<Coord, Node>, done: set<Coord>, k: int)
    requires AttachedUpTo(height, width, nodes, keys, r, done, k) && k < |keys| && keys[k] in r
    ensures var c := keys[k];
      AttachedUpTo(height, width, nodes, keys, r[c := r[c].(neighbors := Neighbours(height, width, c.0, c.1))], done + {c}, k + 1)
  {
  }

  lemma AttachAll(height: int, width: int, nodes: map<Coord, Node>, keys: seq<Coord>, r: map<Coord, Node>, done: set<Coord>)
    requires forall c :: c in nodes ==> c in keys
    requires AttachedUpTo(height, width, nodes, keys, r, done, |keys|)
    ensures r.Keys == nodes.Keys
    ensures forall c :: c in r ==> r[c].neighbors == Neighbours(height, width, c.0, c.1)
    ensures forall c :: c in r ==> r[c].terrain == nodes[c].terrain && r[c].altitude == nodes[c].altitude
  {
    forall c | c in r ensures c in done {
      assert c in keys;
    }
  }

  /**
   * The loop of HexGraphe.__init__: give every node its neighbour list,
   * keeping terrain and altitude.
   */
  method AttachNeighbours(height: int, width: int, nodes: map<Coord, Node>, keys: seq<Coord>)
    returns (r: map<Coord, Node>)
    requires forall c :: c in nodes ==> c in keys
    requires forall j :: 0 <= j < |keys| ==> keys[j] in nodes
    ensures r.Keys == nodes.Keys
    ensures forall c :: c in r ==> r[c].neighbors == Neighbours(height, width, c.0, c.1)
    ensures forall c :: c in r ==> r[c].terrain == nodes[c].terrain && r[c].altitude == nodes[c].altitude
  {
    r := nodes;
    ghost var done: set<Coord> := {};
    for k := 0 to |keys|
      invariant AttachedUpTo(height, width, nodes, keys, r, done, k)
    {
      var c := keys[k];
      AttachOne(height, width, nodes, keys, r, done, k);
      r := r[c := r[c].(neighbors := Neighbours(height, width, c.0, c.1))];
      done := done + {c};
    }
    AttachAll(height, width, nodes, keys, r, done);
  }

  /**
   * HexGraphe: the node table, keyed by coordinate, with its keys in insertion
   * order.  Terrain is the only thing later generation steps change.
   */
  class HexGraph {
    const height: int
    const width: int
    const keys: seq<Coord>
    var nodes: map<Coord, Node>

    /** The table is a dictionary (distinct keys in insertion order) whose
        neighbour lists have been attached. */
    ghost predicate Valid()
      reads this
    {
      && Distinct(keys)
      && (forall c :: c in nodes <==> c in keys)
      && forall c :: c in nodes ==> nodes[c].neighbors == Neighbours(height, width, c.0, c.1)
    }

    /** Every cell of the height x width rectangle is in the table, as genererGrille makes it. */
    ghost predicate FullGrid()
      reads this
    {
      Valid() && forall c :: c in nodes <==> InGrid(height, width, c)
    }

    /** HexGraphe.__init__. */
    constructor (table: map<Coord, Node>, order: seq<Coord>, height: int, width: int)
      requires Distinct(order)
      requires forall c :: c in table <==> c in order
      ensures Valid()
      ensures this.height == height && this.width == width && keys == order
      ensures nodes.Keys == table.Keys
      ensures forall c :: c in nodes ==> nodes[c].terrain == table[c].terrain && nodes[c].altitude == table[c].altitude
    {
      var attached := AttachNeighbours(height, width, table, order);
      this.height, this.width := height, width;
      keys, nodes := order, attached;
    }

    /** get_nodes: every coordinate of the table, once each, in insertion order. */
    function GetNodes(): (r: seq<Coord>)
      reads this
      ensures Valid() ==> Distinct(r) && forall c :: c in r <==> c in nodes
    {
      keys
    }

    /** get_terrain. */
    function GetTerrain(x: int, y: int): (t: Terrain)
      reads this
      requires (x, y) in nodes
      ensures Valid() ==> (x, y) in GetNodes()
    {
      nodes[(x, y)].terrain
    }
  }

  /**
   * What the path-finding and river code rely on in a node table: `keys`
   * lists the table's cells once each, and every neighbour list is free of
   * repeats, omits its own cell and names only cells of the table.
   */
  ghost predicate WellFormed(nodes: map<Coord, Node>, keys: seq<Coord>) {
    && Distinct(keys)
    && (forall c :: c in nodes <==> c in keys)
    && forall c :: c in nodes ==>
         && Distinct(nodes[c].neighbors) && c !in nodes[c].neighbors
         && forall n :: n in nodes[c].neighbors ==> n in nodes
  }

  /** The full grid is such a table. */
  lemma FullGridWellFormed(g: HexGraph)
    requires g.FullGrid()
    ensures WellFormed(g.nodes, g.keys)
  {
    forall c | c in g.nodes
      ensures Distinct(g.nodes[c].neighbors) && c !in g.nodes[c].neighbors
      ensures forall n :: n in g.nodes[c].neighbors ==> n in g.nodes
    {
      NeighboursShape(g.height, g.width, c.0, c.1);
    }
  }

  /** A graph built from genererGrille's table is the full grid, altitudes within [0, 1000]. */
  method BuildGrid(height: nat, width: nat, draws: seq<(Terrain, int)>) returns (g: HexGraph)
    requires |draws| == height * width
    requires forall k :: 0 <= k < |draws| ==> 0 <= draws[k].1 <= 1000
    ensures g.FullGrid() && g.height == height && g.width == width
    ensures g.keys == RowMajor(height, width) && |g.keys| == |draws|
    ensures forall k :: 0 <= k < |draws| ==>
              && g.keys[k] in g.nodes
              && g.nodes[g.keys[k]].terrain == draws[k].0 && g.nodes[g.keys[k]].altitude == draws[k].1
    ensures forall c :: c in g.nodes ==> 0 <= g.nodes[c].altitude <= 1000
  {
    var table, order := GenerateGrid(height, width, draws);
    RowMajorCells(height, width);
    g := new HexGraph(table, order, height, width);
  }
}
