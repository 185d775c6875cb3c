/**
 * The disjoint-set forest used to detect cycles while building the road
 * network: a parent map in which a root maps to None.  There is no path
 * compression and no union by rank.
 */
module DisjointSets {
  import opened Wrappers

  /**
   * The parent links are acyclic, witnessed by a ghost level per element:
   * an element's parent always sits at a strictly lower level, so following
   * parents reaches a root.
   */
  ghost predicate Leveled<T>(parent: map<T, Option<T>>, level: map<T, nat>) {
    && parent.Keys == level.Keys
    && forall x :: x in parent && parent[x].Some? ==>
         parent[x].value in parent && level[parent[x].value] < level[x]
  }

  /** find: follow the parent links of `x` up to its root. */
  function Find<T>(parent: map<T, Option<T>>, ghost level: map<T, nat>, x: T): (r: T)
    requires Leveled(parent, level) && x in parent
    ensures r in parent && parent[r] == None
    decreases level[x]
  {
    match parent[x]
    case None => x
    case Some(p) => Find(parent, level, p)
  }

  /** The levels after root `xr` is attached under root `yr`: xr's whole tree moves below yr. */
  ghost function LinkLevels<T>(parent: map<T, Option<T>>, level: map<T, nat>, xr: T, yr: T): (level': map<T, nat>)
    requires Leveled(parent, level) && yr in parent
    ensures level'.Keys == level.Keys
  {
    map z | z in level :: if Find(parent, level, z) == xr then level[z] + level[yr] + 1 else level[z]
  }

  /** Attaching one root under another keeps the links acyclic. */
  lemma LinkKeepsLeveled<T>(parent: map<T, Option<T>>, level: map<T, nat>, xr: T, yr: T)
    requires Leveled(parent, level)
    requires xr in parent && yr in parent && parent[xr] == None && parent[yr] == None && xr != yr
    ensures Leveled(parent[xr := Some(yr)], LinkLevels(parent, level, xr, yr))
  {
    var parent', level' := parent[xr := Some(yr)], LinkLevels(parent, level, xr, yr);
    forall z | z in parent' && parent'[z].Some?
      ensures parent'[z].value in parent' && level'[parent'[z].value] < level'[z]
    {
      if z == xr {
        assert Find(parent, level, yr) == yr;
      } else {
        var p := parent[z].value;
        assert Find(parent, level, z) == Find(parent, level, p);
      }
    }
  }

  /** After attaching root `xr` under root `yr`, the elements of xr's tree have root `yr`; every other root is kept. */
  lemma {:induction false} FindAfterLink<T>(parent: map<T, Option<T>>, level: map<T, nat>, xr: T, yr: T,
                                            level': map<T, nat>, z: T)
    requires Leveled(parent, level)
    requires xr in parent && yr in parent && parent[xr] == None && parent[yr] == None && xr != yr
    requires Leveled(parent[xr := Some(yr)], level')
    requires z in parent
    ensures Find(parent[xr := Some(yr)], level', z)
         == if Find(parent, level, z) == xr then yr else Find(parent, level, z)
    decreases level[z]
  {
    var parent' := parent[xr := Some(yr)];
    if z == xr {
      assert Find(parent', level', yr) == yr;
    } else if parent[z].Some? {
      FindAfterLink(parent, level, xr, yr, level', parent[z].value);
    }
  }

  /**
   * `parent'` is `parent` with the tree of root `xr` moved under root `yr`:
   * whatever had root `xr` now has root `yr`, every other root is kept.
   */
  ghost predicate Relabelled<T>(parent: map<T, Option<T>>, level: map<T, nat>,
                                parent': map<T, Option<T>>, level': map<T, nat>, xr: T, yr: T)
  {
    && Leveled(parent, level) && Leveled(parent', level')
    && parent.Keys == parent'.Keys
    && forall z :: z in parent ==>
         Find(parent', level', z) == if Find(parent, level, z) == xr then yr else Find(parent, level, z)
  }

  /** Any acyclic levelling of the linked map gives the same representatives. */
  lemma RelabelledAnyLevels<T>(parent: map<T, Option<T>>, level: map<T, nat>, xr: T, yr: T, level': map<T, nat>)
    requires Leveled(parent, level)
    requires xr in parent && yr in parent && parent[xr] == None && parent[yr] == None && xr != yr
    requires Leveled(parent[xr := Some(yr)], level')
    ensures Relabelled(parent, level, parent[xr := Some(yr)], level', xr, yr)
  {
    forall z | z in parent
      ensures Find(parent[xr := Some(yr)], level', z) == if Find(parent, level, z) == xr then yr else Find(parent, level, z)
    {
      FindAfterLink(parent, level, xr, yr, level', z);
    }
  }

  /** union's effect on every representative at once. */
  lemma RootsAfterLink<T>(parent: map<T, Option<T>>, level: map<T, nat>, xr: T, yr: T)
    requires Leveled(parent, level)
    requires xr in parent && yr in parent && parent[xr] == None && parent[yr] == None && xr != yr
    ensures Relabelled(parent, level, parent[xr := Some(yr)], LinkLevels(parent, level, xr, yr), xr, yr)
  {
    LinkKeepsLeveled(parent, level, xr, yr);
    RelabelledAnyLevels(parent, level, xr, yr, LinkLevels(parent, level, xr, yr));
  }

  /** UnionFind: the parent map, updated in place by makeSet and union. */
  class UnionFind<T(==)> {
    var parent: map<T, Option<T>>
    ghost var level: map<T, nat>

    ghost predicate Valid()
      reads this
    {
      Leveled(parent, level)
    }

    constructor ()
      ensures Valid() && parent == map[]
    {
      parent, level := map[], map[];
    }

    /** makeSet: `x` becomes a root, its own representative. */
    method MakeSet(x: T)
      requires Valid()
      modifies this
      ensures Valid()
      ensures parent == old(parent)[x := None]
      ensures Find(parent, level, x) == x
    {
      parent := parent[x := None];
      level := if x in level then level else level[x := 0];
    }

    /**
     * union: if the roots of `x` and `y` differ, point x's root at y's root.
     * Exactly one link changes, from None to y's root; `RootsAfterLink` says
     * what that does to every representative.
     */
    method Union(x: T, y: T)
      requires Valid() && x in parent && y in parent
      modifies this
      ensures Valid() && parent.Keys == old(parent).Keys
      ensures old(Find(parent, level, x)) == old(Find(parent, level, y)) ==> parent == old(parent) && level == old(level)
      ensures old(Find(parent, level, x)) != old(Find(parent, level, y)) ==>
        && parent == old(parent)[old(Find(parent, level, x)) := Some(old(Find(parent, level, y)))]
        && level == LinkLevels(old(parent), old(level), old(Find(parent, level, x)), old(Find(parent, level, y)))
      ensures Find(parent, level, x) == Find(parent, level, y)
    {
      var xr, yr := Find(parent, level, x), Find(parent, level, y);
      if xr != yr {
        var parent1 := parent[xr := Some(yr)];
        ghost var level1 := LinkLevels(parent, level, xr, yr);
        LinkKeepsLeveled(parent, level, xr, yr);
        FindAfterLink(parent, level, xr, yr, level1, x);
        FindAfterLink(parent, level, xr, yr, level1, y);
        assert parent1.Keys == parent.Keys;
        parent, level := parent1, level1;
      }
    }
  }
}
