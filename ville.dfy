/**
 * Settlement placement: cells are drawn at random until four distinct
 * non-water cells have been accepted.  The random draws are an input, a
 * sequence of cells already in the grid's range; when the draws run out
 * before four settlements are placed, placement reports failure.
 */
module Settlements {
  import opened Wrappers
  import opened Seqs
  import opened Hex

  /** nb_ville: the number of settlements placed. */
  const NbVille: nat := 4

  /** A draw is accepted when its cell is in the table, is not water and holds no settlement yet. */
  predicate Acceptable(nodes: map<Coord, Node>, placed: seq<Coord>, c: Coord) {
    c in nodes && nodes[c].terrain != Water && c !in placed
  }

  /**
   * The settlements chosen from `draws`, after those already `placed`: the
   * draws are taken in turn, each acceptable one is appended, and the scan
   * stops once NbVille settlements exist.
   */
  function Chosen(nodes: map<Coord, Node>, draws: seq<Coord>, placed: seq<Coord>): (r: seq<Coord>)
    ensures |placed| <= |r| <= |placed| + |draws| && r[..|placed|] == placed
    decreases |draws|
  {
    if |placed| >= NbVille || draws == [] then placed
    else if Acceptable(nodes, placed, draws[0]) then Chosen(nodes, draws[1..], placed + [draws[0]])
    else Chosen(nodes, draws[1..], placed)
  }

  /** What placement promises: distinct cells of the table, none of them water, at most NbVille of them. */
  predicate WellPlaced(nodes: map<Coord, Node>, placed: seq<Coord>) {
    && Distinct(placed) && |placed| <= NbVille
    && forall k :: 0 <= k < |placed| ==> placed[k] in nodes && nodes[placed[k]].terrain != Water
  }

  /**
   * Choosing keeps the settlements already placed, in order, and adds only
   * acceptable draws; when fewer than NbVille result, every draw was
   * rejected or is among the settlements.
   */
  lemma {:induction false} ChosenWellPlaced(nodes: map<Coord, Node>, draws: seq<Coord>, placed: seq<Coord>)
    requires WellPlaced(nodes, placed)
    ensures WellPlaced(nodes, Chosen(nodes, draws, placed))
    ensures placed <= Chosen(nodes, draws, placed)
    ensures forall c :: c in Chosen(nodes, draws, placed) ==> c in placed || c in draws
    ensures |Chosen(nodes, draws, placed)| < NbVille ==>
              forall c :: c in draws ==> c in Chosen(nodes, draws, placed) || c !in nodes || nodes[c].terrain == Water
    decreases |draws|
  {
    if |placed| >= NbVille || draws == [] {
    } else if Acceptable(nodes, placed, draws[0]) {
      var next := placed + [draws[0]];
      assert WellPlaced(nodes, next) by {
        forall i, j | 0 <= i < j < |next| ensures next[i] != next[j] {
          if j == |placed| {
            assert next[i] in placed;
          }
        }
      }
      ChosenWellPlaced(nodes, draws[1..], next);
      assert draws == [draws[0]] + draws[1..];
      assert Chosen(nodes, draws, placed)[|placed|] == next[|placed|] == draws[0];
    } else {
      ChosenWellPlaced(nodes, draws[1..], placed);
      assert draws == [draws[0]] + draws[1..];
    }
  }

  /** One draw of the scan, taken from position `k`. */
  lemma ChosenStep(nodes: map<Coord, Node>, draws: seq<Coord>, k: nat, placed: seq<Coord>)
    requires k < |draws| && |placed| < NbVille
    ensures Chosen(nodes, draws[k..], placed)
         == if Acceptable(nodes, placed, draws[k]) then Chosen(nodes, draws[k + 1..], placed + [draws[k]])
            else Chosen(nodes, draws[k + 1..], placed)
  {
    assert draws[k..][1..] == draws[k + 1..];
  }

  /**
   * Ville: the settlements, as a dictionary from cell to the routes stored
   * for it; a stored None records that the other settlement is unreachable.
   */
  class Ville {
    const grid: HexGraph
    var villes: map<Coord, map<Coord, Option<Route>>>
    /** The keys of `villes` in insertion order. */
    var order: seq<Coord>

    ghost predicate Valid()
      reads this
    {
      Distinct(order) && forall c :: c in villes <==> c in order
    }

    constructor (grid: HexGraph)
      ensures this.grid == grid && Valid() && villes == map[] && order == []
    {
      this.grid := grid;
      villes, order := map[], [];
    }

    /**
     * placer_ville: empty the table, then accept draws until NbVille
     * settlements exist; `ok` says whether the draws sufficed.
     */
    method PlaceVilles(height: int, width: int, draws: seq<Coord>) returns (ok: bool)
      requires forall c :: InGrid(height, width, c) ==> c in grid.nodes
      requires forall k :: 0 <= k < |draws| ==> InGrid(height, width, draws[k])
      modifies this
      ensures Valid()
      ensures order == Chosen(grid.nodes, draws, [])
      ensures forall c :: c in villes ==> villes[c] == map[]
      ensures WellPlaced(grid.nodes, order) && forall c :: c in order ==> InGrid(height, width, c)
      ensures ok <==> |order| == NbVille
    {
      villes, order := map[], [];
      assert draws[0..] == draws;
      var i, k := 0, 0;
      while i < NbVille && k < |draws|
        invariant 0 <= k <= |draws| && i == |order|
        invariant Valid() && forall c :: c in villes ==> villes[c] == map[]
        invariant Chosen(grid.nodes, draws[k..], order) == Chosen(grid.nodes, draws, [])
      {
        var cell := draws[k];
        ChosenStep(grid.nodes, draws, k, order);
        if grid.GetTerrain(cell.0, cell.1) != Water && cell !in villes {
          DistinctSnoc(order, cell);
          villes := villes[cell := map[]];
          order := order + [cell];
          i := i + 1;
        }
        k := k + 1;
      }
      ChosenWellPlaced(grid.nodes, draws, []);
      ok := i == NbVille;
    }

    /** get_villes: the settlement cells in placement order. */
    function GetVilles(): (r: seq<Coord>)
      reads this
      ensures Valid() ==> Distinct(r) && forall c :: c in r <==> c in villes
    {
      order
    }
  }
}
