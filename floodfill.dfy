/**
 * The proof outline of the recursive flood fill, on sets of pixels.
 *
 * `A` is the set of cells whose source value is the target and `L` the set
 * already labelled when a call starts, so `A - L` is where the call may go.
 * After the seed `p` is labelled and some of its four recursive calls have
 * returned, the labelled set `M` is part of the seed's reach and is closed
 * except at the neighbours `E` whose calls are still to come.
 */
module FloodFill {
  import opened Connectivity
  import opened Regions

  ghost predicate Progress(G: set<Pixel>, p: Pixel, M: set<Pixel>, E: set<Pixel>)
  {
    p in G && p in M && M <= ReachSet(G, p) && ClosedExcept(G, M, E)
  }

  /** A call on neighbour `q`, made with `M` already labelled, labels the reach `R` of `q` among the cells still open. */
  lemma AfterCall(G: set<Pixel>, p: Pixel, M: set<Pixel>, E: set<Pixel>, q: Pixel, R: set<Pixel>)
    requires Progress(G, p, M, E) && Adjacent(p, q)
    requires R == ReachSet(G - M, q)
    ensures Progress(G, p, M + R, E - {q})
  {
    GrowStep(G, p, M, E, q, R);
  }

  /**
   * The four recursive calls, on the right, upper, left and lower neighbour
   * in turn, each label the reach of their start among the cells still open;
   * together with the seed they label exactly the seed's reach.
   */
  lemma Combine(A: set<Pixel>, L: set<Pixel>, p: Pixel, R1: set<Pixel>, R2: set<Pixel>, R3: set<Pixel>, R4: set<Pixel>)
    requires p in A - L
    requires R1 == ReachSet(A - (L + {p}), Right(p))
    requires R2 == ReachSet(A - (L + {p} + R1), Up(p))
    requires R3 == ReachSet(A - (L + {p} + R1 + R2), Left(p))
    requires R4 == ReachSet(A - (L + {p} + R1 + R2 + R3), Down(p))
    ensures L + {p} + R1 + R2 + R3 + R4 == L + ReachSet(A - L, p)
  {
    var G := A - L;
    var E := {Right(p), Up(p), Left(p), Down(p)};
    GrowStart(G, p);
    assert G - {p} == A - (L + {p});
    AfterCall(G, p, {p}, E, Right(p), R1);
    assert G - ({p} + R1) == A - (L + {p} + R1);
    AfterCall(G, p, {p} + R1, E - {Right(p)}, Up(p), R2);
    assert G - ({p} + R1 + R2) == A - (L + {p} + R1 + R2);
    AfterCall(G, p, {p} + R1 + R2, E - {Right(p)} - {Up(p)}, Left(p), R3);
    assert G - ({p} + R1 + R2 + R3) == A - (L + {p} + R1 + R2 + R3);
    AfterCall(G, p, {p} + R1 + R2 + R3, E - {Right(p)} - {Up(p)} - {Left(p)}, Down(p), R4);
    assert E - {Right(p)} - {Up(p)} - {Left(p)} - {Down(p)} == {};
    GrowFinish(G, p, {p} + R1 + R2 + R3 + R4);
  }

  /**
   * Once an open cell `p` is labelled, whatever is labelled later leaves a
   * strictly smaller open set: the termination measure of the fill.
   */
  lemma OpenShrinks(A: set<Pixel>, L: set<Pixel>, p: Pixel, M: set<Pixel>, N: set<Pixel>)
    requires p in A - L && L + {p} <= M <= N
    ensures A - N < A - L
  {
    assert p !in A - N;
  }

  /**
   * The labels after the recursive fill from `p` over source grid `g` with
   * target value `v`, when `L` is labelled on entry: a cell outside the grid,
   * already labelled or of another value adds nothing; otherwise the cell is
   * labelled and the fill continues from its right, upper, left and lower
   * neighbour, each seeing the labels of the calls before it.  The fill only
   * ever adds cells, and only cells of value `v`.
   */
  ghost function Fill(g: Grid, v: int, L: set<Pixel>, p: Pixel): (r: set<Pixel>)
    ensures L <= r
    ensures r - L <= Region(g, v)
    decreases Region(g, v) - L
  {
    if !InGrid(g, p) || p in L || At(g, p) != v then L
    else
      var L1 := L + {p};
      var L2 := Fill(g, v, L1, Right(p));
      var L3 := Fill(g, v, L2, Up(p));
      var L4 := Fill(g, v, L3, Left(p));
      Fill(g, v, L4, Down(p))
  }

  /** A fill that passes the guards is its four neighbour fills in turn. */
  lemma FillSteps(g: Grid, v: int, L: set<Pixel>, p: Pixel, L2: set<Pixel>, L3: set<Pixel>, L4: set<Pixel>, L5: set<Pixel>)
    requires InGrid(g, p) && p !in L && At(g, p) == v
    requires L2 == Fill(g, v, L + {p}, Right(p)) && L3 == Fill(g, v, L2, Up(p))
    requires L4 == Fill(g, v, L3, Left(p)) && L5 == Fill(g, v, L4, Down(p))
    ensures L5 == Fill(g, v, L, p)
  {
  }

  /**
   * The fill labels exactly the cells reachable from `p` through 4-adjacent,
   * unlabelled cells of value `v`, and keeps what was labelled before.
   */
  lemma {:induction false} FillIsReach(g: Grid, v: int, L: set<Pixel>, p: Pixel)
    ensures Fill(g, v, L, p) == L + ReachSet(Region(g, v) - L, p)
    decreases Region(g, v) - L
  {
    var A := Region(g, v);
    if !InGrid(g, p) || p in L || At(g, p) != v {
      ReachSetOfSeed(A - L, p);
    } else {
      var L1 := L + {p};
      var L2 := Fill(g, v, L1, Right(p));
      var L3 := Fill(g, v, L2, Up(p));
      var L4 := Fill(g, v, L3, Left(p));
      FillIsReach(g, v, L1, Right(p));
      FillIsReach(g, v, L2, Up(p));
      FillIsReach(g, v, L3, Left(p));
      FillIsReach(g, v, L4, Down(p));
      Combine(A, L, p,
        ReachSet(A - L1, Right(p)), ReachSet(A - L2, Up(p)),
        ReachSet(A - L3, Left(p)), ReachSet(A - L4, Down(p)));
    }
  }

  /**
   * One turn of the seed loop: filling from the next seed, at that seed's own
   * value, over the labels of the seeds before it gives the labels of the
   * seeds up to and including it.
   */
  lemma SeedStep(g: Grid, seeds: seq<Pixel>, i: nat, L: set<Pixel>, N: set<Pixel>)
    requires i < |seeds| && forall k :: 0 <= k < |seeds| ==> InGrid(g, seeds[k])
    requires L == FloodSet(g, seeds[..i])
    requires N == Fill(g, At(g, seeds[i]), L, seeds[i])
    ensures N == FloodSet(g, seeds[..i + 1])
  {
    FillIsReach(g, At(g, seeds[i]), L, seeds[i]);
    FloodSetStep(g, seeds, i);
  }
}
