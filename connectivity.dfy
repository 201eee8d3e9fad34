/**
 * Pixels of a raster and 4-connected reachability inside a set of pixels.
 *
 * A pixel is addressed as (col, row), the order in which the plugin keeps its
 * `index` tuples; grids are indexed [row, col].  `Reaches(G, a, b)` holds when
 * a path of 4-adjacent pixels, all in `G`, leads from `a` to `b`.  The lemmas
 * here are what the depth-first flood fill needs: reachability is closed under
 * stepping to a neighbour in `G`, and any set that contains the seed and is
 * closed that way contains everything reachable from the seed.
 */
module Connectivity {

  datatype Pixel = Pixel(col: int, row: int)

  /** The four neighbours, in the order the flood fill visits them. */
  function Right(p: Pixel): Pixel { Pixel(p.col + 1, p.row) }
  function Up(p: Pixel): Pixel { Pixel(p.col, p.row - 1) }
  function Left(p: Pixel): Pixel { Pixel(p.col - 1, p.row) }
  function Down(p: Pixel): Pixel { Pixel(p.col, p.row + 1) }

  /** 4-adjacency: the pixels differ by one in exactly one coordinate. */
  predicate Adjacent(a: Pixel, b: Pixel)
  {
    (a.row == b.row && (a.col - b.col == 1 || b.col - a.col == 1)) ||
    (a.col == b.col && (a.row - b.row == 1 || b.row - a.row == 1))
  }

  /** The four visited neighbours are adjacent, and they are all the neighbours there are. */
  lemma NeighboursAreAdjacent(p: Pixel, q: Pixel)
    ensures Adjacent(p, q) <==> q in {Right(p), Up(p), Left(p), Down(p)}
  {
  }

  /** The `k`-th step of `s` joins adjacent pixels. */
  ghost predicate StepAt(s: seq<Pixel>, k: int)
    requires 0 <= k < |s| - 1
  {
    Adjacent(s[k], s[k + 1])
  }

  /** A non-empty sequence of pixels of `G`, each adjacent to the next. */
  ghost predicate IsPath(G: set<Pixel>, s: seq<Pixel>)
  {
    |s| > 0 &&
    (forall k :: 0 <= k < |s| ==> s[k] in G) &&
    (forall k :: 0 <= k < |s| - 1 ==> StepAt(s, k))
  }

  ghost predicate Reaches(G: set<Pixel>, a: Pixel, b: Pixel)
  {
    exists s :: IsPath(G, s) && s[0] == a && s[|s| - 1] == b
  }

  /** Everything in `G` that a path inside `G` leads to from `a`. */
  ghost function ReachSet(G: set<Pixel>, a: Pixel): (R: set<Pixel>)
    ensures R <= G
  {
    set b | b in G && Reaches(G, a, b)
  }

  /** A seed outside `G` reaches nothing; a seed inside reaches itself. */
  lemma ReachSetOfSeed(G: set<Pixel>, a: Pixel)
    ensures a !in G ==> ReachSet(G, a) == {}
    ensures a in G ==> a in ReachSet(G, a)
  {
    if a in G {
      assert IsPath(G, [a]);
    }
  }

  /** Reachability is closed under stepping to a neighbour that lies in `G`. */
  lemma ReachSetClosed(G: set<Pixel>, a: Pixel, x: Pixel, y: Pixel)
    requires x in ReachSet(G, a) && y in G && Adjacent(x, y)
    ensures y in ReachSet(G, a)
  {
    var s :| IsPath(G, s) && s[0] == a && s[|s| - 1] == x;
    var t := s + [y];
    assert t[|t| - 1] == y;
    forall k | 0 <= k < |t| - 1
      ensures StepAt(t, k)
    {
      if k < |s| - 1 {
        assert StepAt(s, k);
      }
    }
    assert IsPath(G, t);
  }

  /** A pixel of `G` next to `a` passes on to `a` whatever it reaches, in any superset of the region. */
  lemma ReachThroughNeighbour(G: set<Pixel>, Gsub: set<Pixel>, a: Pixel, q: Pixel, x: Pixel)
    requires Gsub <= G && a in G && Adjacent(a, q)
    requires x in ReachSet(Gsub, q)
    ensures x in ReachSet(G, a)
  {
    var s :| IsPath(Gsub, s) && s[0] == q && s[|s| - 1] == x;
    var t := [a] + s;
    assert t[|t| - 1] == x;
    forall k | 0 < k < |t| - 1
      ensures StepAt(t, k)
    {
      assert StepAt(s, k - 1);
    }
    assert IsPath(G, t);
  }

  /** The end of a path lies in every set that holds its start and is closed under adjacency in `G`. */
  lemma {:induction false} PathEndInClosed(G: set<Pixel>, M: set<Pixel>, s: seq<Pixel>)
    requires IsPath(G, s) && s[0] in M
    requires forall x, y :: x in M && y in G && Adjacent(x, y) ==> y in M
    ensures s[|s| - 1] in M
    decreases |s|
  {
    if |s| > 1 {
      var init := s[..|s| - 1];
      forall k | 0 <= k < |init| - 1
        ensures StepAt(init, k)
      {
        assert StepAt(s, k);
      }
      assert IsPath(G, init);
      PathEndInClosed(G, M, init);
      assert StepAt(s, |s| - 2);
    }
  }

  /** A closed set holding the seed holds the seed's whole reach. */
  lemma ReachSetLeast(G: set<Pixel>, M: set<Pixel>, a: Pixel)
    requires a in M
    requires forall x, y :: x in M && y in G && Adjacent(x, y) ==> y in M
    ensures ReachSet(G, a) <= M
  {
    forall b | b in ReachSet(G, a)
      ensures b in M
    {
      var s :| IsPath(G, s) && s[0] == a && s[|s| - 1] == b;
      PathEndInClosed(G, M, s);
    }
  }

  /** Every pixel on a path is reached from the path's start. */
  lemma PathPrefixReaches(G: set<Pixel>, s: seq<Pixel>, k: int)
    requires IsPath(G, s) && 0 <= k < |s|
    ensures s[k] in ReachSet(G, s[0])
  {
    var t := s[..k + 1];
    assert t[|t| - 1] == s[k];
    forall j | 0 <= j < |t| - 1
      ensures StepAt(t, j)
    {
      assert StepAt(s, j);
    }
    assert IsPath(G, t);
  }

  /** Paths can be walked backwards, so reachability is symmetric. */
  lemma {:induction false} PathReversible(G: set<Pixel>, s: seq<Pixel>)
    requires IsPath(G, s)
    ensures Reaches(G, s[|s| - 1], s[0])
    decreases |s|
  {
    if |s| == 1 {
      assert IsPath(G, [s[0]]);
    } else {
      var tail := s[1..];
      forall k | 0 <= k < |tail| - 1
        ensures StepAt(tail, k)
      {
        assert StepAt(s, k + 1);
      }
      assert IsPath(G, tail);
      PathReversible(G, tail);
      assert StepAt(s, 0);
      assert s[0] in G && Adjacent(s[1], s[0]);
      ReachSetClosed(G, s[|s| - 1], s[1], s[0]);
    }
  }

  lemma ReachesSymmetric(G: set<Pixel>, a: Pixel, b: Pixel)
    requires b in ReachSet(G, a)
    ensures a in ReachSet(G, b)
  {
    var s :| IsPath(G, s) && s[0] == a && s[|s| - 1] == b;
    PathReversible(G, s);
  }

  /** Reachability composes. */
  lemma ReachesTransitive(G: set<Pixel>, a: Pixel, b: Pixel, c: Pixel)
    requires b in ReachSet(G, a) && c in ReachSet(G, b)
    ensures c in ReachSet(G, a)
  {
    var s :| IsPath(G, s) && s[0] == a && s[|s| - 1] == b;
    var t :| IsPath(G, t) && t[0] == b && t[|t| - 1] == c;
    var u := s + t[1..];
    assert u[|u| - 1] == c;
    forall k | 0 <= k < |u| - 1
      ensures StepAt(u, k)
    {
      if k < |s| - 1 {
        assert StepAt(s, k);
        assert u[k] == s[k] && u[k + 1] == s[k + 1];
      } else {
        assert StepAt(t, k - |s| + 1);
        assert u[k] == t[k - |s| + 1] && u[k + 1] == t[k - |s| + 2];
      }
    }
    assert IsPath(G, u);
  }

  /** Two pixels reach the same set exactly when one reaches the other. */
  lemma ReachSetShared(G: set<Pixel>, a: Pixel, b: Pixel)
    requires b in ReachSet(G, a)
    ensures ReachSet(G, b) == ReachSet(G, a)
  {
    ReachesSymmetric(G, a, b);
    forall c | c in ReachSet(G, b)
      ensures c in ReachSet(G, a)
    {
      ReachesTransitive(G, a, b, c);
    }
    forall c | c in ReachSet(G, a)
      ensures c in ReachSet(G, b)
    {
      ReachesTransitive(G, b, a, c);
    }
  }

  /** Shrinking `G` to any set that still holds the seed's reach leaves the reach unchanged. */
  lemma ReachSetRestrict(G: set<Pixel>, Gsub: set<Pixel>, a: Pixel)
    requires ReachSet(G, a) <= Gsub <= G
    ensures ReachSet(Gsub, a) == ReachSet(G, a)
  {
    forall b | b in ReachSet(G, a)
      ensures b in ReachSet(Gsub, a)
    {
      var s :| IsPath(G, s) && s[0] == a && s[|s| - 1] == b;
      forall k | 0 <= k < |s|
        ensures s[k] in Gsub
      {
        PathPrefixReaches(G, s, k);
      }
      assert IsPath(Gsub, s);
    }
    forall b | b in ReachSet(Gsub, a)
      ensures b in ReachSet(G, a)
    {
      var s :| IsPath(Gsub, s) && s[0] == a && s[|s| - 1] == b;
      assert IsPath(G, s);
    }
  }

  /**
   * `M` is closed in `G` except that neighbours of `M` listed in `E` may still
   * be missing: the state of a depth-first fill whose pending calls are `E`.
   */
  ghost predicate ClosedExcept(G: set<Pixel>, M: set<Pixel>, E: set<Pixel>)
  {
    forall x, y :: x in M && y in G && Adjacent(x, y) && y !in M ==> y in E
  }

  /** Before any recursive call, only the seed is labelled and its four neighbours are pending. */
  lemma GrowStart(G: set<Pixel>, p: Pixel)
    requires p in G
    ensures {p} <= ReachSet(G, p)
    ensures ClosedExcept(G, {p}, {Right(p), Up(p), Left(p), Down(p)})
  {
    ReachSetOfSeed(G, p);
    forall x, y | x in {p} && y in G && Adjacent(x, y) && y !in {p}
      ensures y in {Right(p), Up(p), Left(p), Down(p)}
    {
      NeighboursAreAdjacent(p, y);
    }
  }

  /**
   * One recursive call on the neighbour `q` labels `R`, the reach of `q` among
   * the pixels still open (`G - M`).  Afterwards the labelled set still lies in
   * the seed's reach and `q` is no longer pending.
   */
  lemma GrowStep(G: set<Pixel>, p: Pixel, M: set<Pixel>, E: set<Pixel>, q: Pixel, R: set<Pixel>)
    requires p in G && M <= ReachSet(G, p)
    requires ClosedExcept(G, M, E)
    requires Adjacent(p, q)
    requires R == ReachSet(G - M, q)
    ensures M + R <= ReachSet(G, p)
    ensures ClosedExcept(G, M + R, E - {q})
  {
    forall x | x in R
      ensures x in ReachSet(G, p)
    {
      ReachThroughNeighbour(G, G - M, p, q, x);
    }
    forall x, y | x in M + R && y in G && Adjacent(x, y) && y !in M + R
      ensures y in E - {q}
    {
      if x in R {
        ReachSetClosed(G - M, q, x, y);
        assert false;
      } else if y == q {
        ReachSetOfSeed(G - M, q);
        assert false;
      }
    }
  }

  /** With nothing pending, the labelled set is exactly the seed's reach. */
  lemma GrowFinish(G: set<Pixel>, p: Pixel, M: set<Pixel>)
    requires p in M && M <= ReachSet(G, p)
    requires ClosedExcept(G, M, {})
    ensures M == ReachSet(G, p)
  {
    ReachSetLeast(G, M, p);
  }
}
