/**
 * What the seed loop of the flood computes, stated on the source grid as a value.
 *
 * `FloodSet(g, seeds)` follows the loop seed by seed: each seed grows, through
 * 4-adjacent cells of its own source value that no earlier seed has labelled,
 * into the shared label grid.  `FloodSetIsUnion` shows that this is the union of
 * the seeds' connected components, whatever the order and whatever the overlap.
 */
module Regions {
  import opened Connectivity

  /** A source raster as rows of cell values, indexed [row][col]. */
  type Grid = seq<seq<int>>

  /** `g` has `h` rows of `w` cells. */
  predicate Shape(g: Grid, h: int, w: int)
  {
    |g| == h && forall r :: 0 <= r < |g| ==> |g[r]| == w
  }

  predicate InGrid(g: Grid, p: Pixel)
  {
    0 <= p.row < |g| && 0 <= p.col < |g[p.row]|
  }

  function At(g: Grid, p: Pixel): int
    requires InGrid(g, p)
  {
    g[p.row][p.col]
  }

  /** All cells of `g` whose value is `v`. */
  ghost function Region(g: Grid, v: int): (S: set<Pixel>)
    ensures forall p :: p in S <==> InGrid(g, p) && At(g, p) == v
  {
    set r, c | 0 <= r < |g| && 0 <= c < |g[r]| && g[r][c] == v :: Pixel(c, r)
  }

  /** The 4-connected component of equal-valued cells that holds `s`. */
  ghost function Component(g: Grid, s: Pixel): (C: set<Pixel>)
    requires InGrid(g, s)
    ensures s in C && C <= Region(g, At(g, s))
  {
    ReachSetOfSeed(Region(g, At(g, s)), s);
    ReachSet(Region(g, At(g, s)), s)
  }

  /**
   * The labels after flooding `seeds` in order into one shared, initially
   * empty label grid.  The seed flooded last always ends up labelled.
   */
  ghost function FloodSet(g: Grid, seeds: seq<Pixel>): (L: set<Pixel>)
    requires forall i :: 0 <= i < |seeds| ==> InGrid(g, seeds[i])
    ensures seeds != [] ==> seeds[|seeds| - 1] in L
    decreases |seeds|
  {
    if seeds == [] then {}
    else
      var labelled := FloodSet(g, seeds[..|seeds| - 1]);
      var s := seeds[|seeds| - 1];
      ReachSetOfSeed(Region(g, At(g, s)) - labelled, s);
      labelled + ReachSet(Region(g, At(g, s)) - labelled, s)
  }

  /** One more seed floods its reach among the cells of its value that are still unlabelled. */
  lemma FloodSetStep(g: Grid, seeds: seq<Pixel>, i: nat)
    requires i < |seeds| && forall k :: 0 <= k < |seeds| ==> InGrid(g, seeds[k])
    ensures FloodSet(g, seeds[..i + 1]) ==
      FloodSet(g, seeds[..i]) + ReachSet(Region(g, At(g, seeds[i])) - FloodSet(g, seeds[..i]), seeds[i])
  {
    assert seeds[..i + 1][..i] == seeds[..i];
  }

  /** The union of the components of `seeds`. */
  ghost function ComponentUnion(g: Grid, seeds: seq<Pixel>): set<Pixel>
    requires forall i :: 0 <= i < |seeds| ==> InGrid(g, seeds[i])
    decreases |seeds|
  {
    if seeds == [] then {}
    else ComponentUnion(g, seeds[..|seeds| - 1]) + Component(g, seeds[|seeds| - 1])
  }

  /** Every cell of a component has that same component: the choice of seed inside a region does not matter. */
  lemma ComponentOfMember(g: Grid, s: Pixel, x: Pixel)
    requires InGrid(g, s) && x in Component(g, s)
    ensures InGrid(g, x) && At(g, x) == At(g, s)
    ensures Component(g, x) == Component(g, s)
  {
    ReachSetShared(Region(g, At(g, s)), s, x);
  }

  /** A union of components holds the whole component of each of its cells. */
  lemma {:induction false} ComponentUnionClosed(g: Grid, seeds: seq<Pixel>, x: Pixel)
    requires forall i :: 0 <= i < |seeds| ==> InGrid(g, seeds[i])
    requires x in ComponentUnion(g, seeds)
    ensures InGrid(g, x) && Component(g, x) <= ComponentUnion(g, seeds)
    decreases |seeds|
  {
    var init := seeds[..|seeds| - 1];
    var s := seeds[|seeds| - 1];
    if x in ComponentUnion(g, init) {
      ComponentUnionClosed(g, init, x);
    } else {
      ComponentOfMember(g, s, x);
    }
  }

  /**
   * Flooding the seeds in order into a shared label grid labels exactly the
   * union of their components: a seed already covered by an earlier seed adds
   * nothing, and otherwise its whole component is still unlabelled.
   */
  lemma {:induction false} FloodSetIsUnion(g: Grid, seeds: seq<Pixel>)
    requires forall i :: 0 <= i < |seeds| ==> InGrid(g, seeds[i])
    ensures FloodSet(g, seeds) == ComponentUnion(g, seeds)
    decreases |seeds|
  {
    if seeds != [] {
      var init := seeds[..|seeds| - 1];
      var s := seeds[|seeds| - 1];
      FloodSetIsUnion(g, init);
      var labelled := ComponentUnion(g, init);
      var G := Region(g, At(g, s));
      if s in labelled {
        ComponentUnionClosed(g, init, s);
        ReachSetOfSeed(G - labelled, s);
      } else {
        forall y | y in Component(g, s)
          ensures y !in labelled
        {
          if y in labelled {
            ComponentUnionClosed(g, init, y);
            ComponentOfMember(g, s, y);
            assert false;
          }
        }
        ReachSetRestrict(G, G - labelled, s);
      }
    }
  }

  /** On a fresh label grid, one seed labels exactly its connected component. */
  lemma SingleSeedFloodsComponent(g: Grid, s: Pixel)
    requires InGrid(g, s)
    ensures FloodSet(g, [s]) == Component(g, s)
  {
    FloodSetIsUnion(g, [s]);
    assert [s][..0] == [];
  }

  /** The last seed only adds labels. */
  lemma FloodSetKeeps(g: Grid, seeds: seq<Pixel>)
    requires seeds != [] && forall i :: 0 <= i < |seeds| ==> InGrid(g, seeds[i])
    ensures FloodSet(g, seeds[..|seeds| - 1]) <= FloodSet(g, seeds)
  {
  }

  /** Flooded cells never lose their label when more seeds follow. */
  lemma {:induction false} FloodSetGrows(g: Grid, seeds: seq<Pixel>, more: seq<Pixel>)
    requires forall i :: 0 <= i < |seeds| ==> InGrid(g, seeds[i])
    requires forall i :: 0 <= i < |more| ==> InGrid(g, more[i])
    ensures FloodSet(g, seeds) <= FloodSet(g, seeds + more)
    decreases |more|
  {
    if more != [] {
      var all := seeds + more;
      var init := more[..|more| - 1];
      assert all[..|all| - 1] == seeds + init;
      FloodSetGrows(g, seeds, init);
      FloodSetKeeps(g, all);
    } else {
      assert seeds + more == seeds;
    }
  }

  /** Every seed ends up labelled, and only cells of the grid are. */
  lemma {:induction false} FloodSetCovers(g: Grid, seeds: seq<Pixel>)
    requires forall i :: 0 <= i < |seeds| ==> InGrid(g, seeds[i])
    ensures forall i :: 0 <= i < |seeds| ==> seeds[i] in FloodSet(g, seeds)
    ensures forall p :: p in FloodSet(g, seeds) ==> InGrid(g, p)
    decreases |seeds|
  {
    if seeds != [] {
      var init := seeds[..|seeds| - 1];
      FloodSetCovers(g, init);
      assert init + [seeds[|seeds| - 1]] == seeds;
      FloodSetGrows(g, init, [seeds[|seeds| - 1]]);
    }
  }
}
