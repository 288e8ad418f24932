/**
 * The structural parts of the fluid simulation that use the neighbour index:
 * the initial block of particles, the rebuild of the index at each step, and
 * the neighbour filtering of the density pass. Particles are identified by
 * their position in the particle sequence, which plays the role of the
 * particle addresses the index stores.
 */
module Simulation {
  import opened SpatialIndex

  datatype Vec2 = Vec2(x: real, y: real)

  const Zero2: Vec2 := Vec2(0.0, 0.0)

  function Plus(a: Vec2, b: Vec2): Vec2 {
    Vec2(a.x + b.x, a.y + b.y)
  }

  function Minus(a: Vec2, b: Vec2): Vec2 {
    Vec2(a.x - b.x, a.y - b.y)
  }

  function Scale(k: real, a: Vec2): Vec2 {
    Vec2(k * a.x, k * a.y)
  }

  function Dot(a: Vec2, b: Vec2): real {
    a.x * b.x + a.y * b.y
  }

  /** The fields of a particle that the modelled code sets. */
  datatype Particle = Particle(pos: Vec2, posOld: Vec2, force: Vec2, sigma: real, beta: real)

  const Spacing: real := 2.0
  /** The radius of support, which is also the cell size of the index. */
  const R: real := Spacing * 1.25
  const Rsq: real := R * R
  const SimW: real := 50.0
  const Bottom: real := 0.0

  // ---------------------------------------------------------------------------
  // The initial block

  /** Half the width of the initial block. */
  const HalfWidth: real := SimW / 4.0
  /** The spacing of the initial block. */
  const GridStep: real := R * 0.5
  /**
   * Points per row and rows: x runs from -HalfWidth to HalfWidth and y from
   * Bottom + HalfWidth to Bottom + 3 * HalfWidth, both in steps of GridStep.
   */
  const GridSide: nat := 21
  const GridSize: nat := GridSide * GridSide

  /** The k-th point of the block in loop order: rows by y, points by x within a row. */
  function GridPoint(k: nat): Vec2 {
    Vec2(-HalfWidth + (k % GridSide) as real * GridStep,
         Bottom + HalfWidth + (k / GridSide) as real * GridStep)
  }

  /** The block's loops visit exactly the GridSide steps of each range, both ends included. */
  lemma GridCoversRanges()
    ensures -HalfWidth + (GridSide - 1) as real * GridStep == HalfWidth
    ensures -HalfWidth + GridSide as real * GridStep > HalfWidth
    ensures Bottom + HalfWidth + (GridSide - 1) as real * GridStep == HalfWidth + HalfWidth * 2.0
    ensures Bottom + HalfWidth + GridSide as real * GridStep > HalfWidth + HalfWidth * 2.0
  {
  }

  /** Every point of the block lies within the block's bounds. */
  lemma GridPointInBlock(k: nat)
    requires k < GridSize
    ensures -HalfWidth <= GridPoint(k).x <= HalfWidth
    ensures Bottom + HalfWidth <= GridPoint(k).y <= HalfWidth + HalfWidth * 2.0
  {
    assert k / GridSide < GridSide;
  }

  /**
   * A new particle: at `pos`, with a previous position jittered by a
   * thousandth of `noise`, no force, and the default viscosity coefficients.
   */
  function NewParticle(pos: Vec2, noise: Vec2): Particle {
    Particle(pos, Plus(pos, Scale(0.001, noise)), Zero2, 3.0, 4.0)
  }

  function Min(a: nat, b: nat): nat {
    if a <= b then a else b
  }

  /**
   * How many of the first `visited` points are added to `existing`
   * particles: each is added while the count does not exceed `n`.
   */
  function Cap(visited: nat, existing: nat, n: nat): nat {
    if existing > n then 0 else Min(visited, n + 1 - existing)
  }

  /**
   * The initial block. Each point is added unless the particle count
   * already exceeds `n`; the check stops the current row, and every later
   * row stops at once. `noise(k)` stands for the two random numbers drawn
   * for the k-th new particle.
   */
  method Init(ps: seq<Particle>, n: nat, noise: nat -> Vec2) returns (out: seq<Particle>)
    ensures |out| == |ps| + Cap(GridSize, |ps|, n)
    ensures |out| <= if |ps| > n then |ps| else n + 1
    ensures |ps| == 0 ==> |out| == Min(GridSize, n + 1)
    ensures out[..|ps|] == ps
    ensures forall k :: |ps| <= k < |out| ==> out[k] == NewParticle(GridPoint(k - |ps|), noise(k - |ps|))
    ensures forall k :: |ps| <= k < |out| ==>
      out[k].sigma == 3.0 && out[k].beta == 4.0 && out[k].force == Zero2
  {
    out := ps;
    var row := 0;
    while row < GridSide
      invariant 0 <= row <= GridSide
      invariant Built(ps, out, n, noise, row * GridSide)
    {
      var y := Bottom + HalfWidth + row as real * GridStep;
      var col := 0;
      while col < GridSide
        invariant 0 <= col <= GridSide
        invariant Built(ps, out, n, noise, row * GridSide + col)
      {
        if |out| > n {
          BuiltSaturated(ps, out, n, noise, row * GridSide + col, (row + 1) * GridSide);
          break;
        }
        var x := -HalfWidth + col as real * GridStep;
        BuiltStep(ps, out, n, noise, row, col);
        out := out + [NewParticle(Vec2(x, y), noise(|out| - |ps|))];
        col := col + 1;
      }
      row := row + 1;
    }
  }

  /** `out` holds `ps` followed by the particles of the first `visited` points that were added. */
  ghost predicate Built(ps: seq<Particle>, out: seq<Particle>, n: nat, noise: nat -> Vec2, visited: nat) {
    && |out| == |ps| + Cap(visited, |ps|, n)
    && out[..|ps|] == ps
    && forall k :: |ps| <= k < |out| ==> out[k] == NewParticle(GridPoint(k - |ps|), noise(k - |ps|))
  }

  /** Once the count exceeds `n`, visiting more points adds nothing. */
  lemma BuiltSaturated(ps: seq<Particle>, out: seq<Particle>, n: nat, noise: nat -> Vec2, visited: nat, later: nat)
    requires Built(ps, out, n, noise, visited) && |out| > n && visited <= later
    ensures Built(ps, out, n, noise, later)
  {
  }

  /** Visiting point `col` of row `row` while the count is at most `n` adds that point's particle. */
  lemma BuiltStep(ps: seq<Particle>, out: seq<Particle>, n: nat, noise: nat -> Vec2, row: nat, col: nat)
    requires col < GridSide && Built(ps, out, n, noise, row * GridSide + col) && |out| <= n
    ensures |out| - |ps| == row * GridSide + col
    ensures var p := Vec2(-HalfWidth + col as real * GridStep, Bottom + HalfWidth + row as real * GridStep);
      Built(ps, out + [NewParticle(p, noise(|out| - |ps|))], n, noise, row * GridSide + col + 1)
  {
    var m := row * GridSide + col;
    GridIndex(row, col);
    var out' := out + [NewParticle(GridPoint(m), noise(m))];
    assert out'[..|ps|] == out[..|ps|];
    assert forall k :: |ps| <= k < |out| ==> out'[k] == out[k];
  }

  /** Position `row * GridSide + col` is point `col` of row `row`. */
  lemma GridIndex(row: nat, col: nat)
    requires col < GridSide
    ensures (row * GridSide + col) % GridSide == col
    ensures (row * GridSide + col) / GridSide == row
  {
  }

  // ---------------------------------------------------------------------------
  // Rebuilding the index

  /** A particle's position in the plane z = 0, where the index keeps it. */
  function Lift(p: Vec2): Vec3 {
    Vec3(p.x, p.y, 0.0)
  }

  /** One entry per particle, in particle order, naming the particle by its position in the sequence. */
  function Entries(ps: seq<Particle>): (r: seq<Entry<int>>)
    ensures |r| == |ps|
    ensures forall k :: 0 <= k < |ps| ==> r[k] == Entry(Lift(ps[k].pos), k)
  {
    seq(|ps|, k requires 0 <= k < |ps| => Entry(Lift(ps[k].pos), k))
  }

  /** The rebuild of each step: empty the index, then insert every particle once. */
  method Rebuild(idx: Index<int>, ps: seq<Particle>) returns (r: Index<int>)
    ensures r == InsertAll(Clear(idx), Entries(ps))
    ensures r.offsets == idx.offsets && r.invCellSize == idx.invCellSize
    ensures forall c :: Bucket(r.buckets, c) == ItemsAt(Entries(ps), c, idx.invCellSize)
  {
    var es := Entries(ps);
    r := Clear(idx);
    var i := 0;
    while i < |ps|
      invariant 0 <= i <= |ps|
      invariant r == InsertAll(Clear(idx), es[..i])
    {
      r := Insert(r, Lift(ps[i].pos), i);
      assert es[i] == Entry(Lift(ps[i].pos), i);
      assert es[..i + 1][..i] == es[..i];
      i := i + 1;
    }
    assert es[..i] == es;
    RebuiltBuckets(idx, ps);
  }

  /** Each bucket of the rebuilt index lists the particles in its cell, in particle order. */
  lemma RebuiltBuckets(idx: Index<int>, ps: seq<Particle>)
    ensures var built := InsertAll(Clear(idx), Entries(ps));
      built.offsets == idx.offsets && built.invCellSize == idx.invCellSize
    ensures forall c :: Bucket(InsertAll(Clear(idx), Entries(ps)).buckets, c) == ItemsAt(Entries(ps), c, idx.invCellSize)
  {
    forall c
      ensures Bucket(InsertAll(Clear(idx), Entries(ps)).buckets, c) == ItemsAt(Entries(ps), c, idx.invCellSize)
    {
      BucketsAfterInsertAll(idx, Entries(ps), c);
    }
    BucketsAfterInsertAll(idx, Entries(ps), Origin);
  }

  /** Particles are entered once each. */
  lemma EntriesDistinct(ps: seq<Particle>)
    ensures DistinctItems(Entries(ps))
  {
  }

  /** Every item of a bucket of the rebuilt index names a particle. */
  lemma {:induction false} ItemsNameParticles(es: seq<Entry<int>>, c: Cell, inv: real, n: nat)
    requires forall k :: 0 <= k < |es| ==> 0 <= es[k].item < n
    ensures forall t :: t in ItemsAt(es, c, inv) ==> 0 <= t < n
  {
    if |es| > 0 {
      ItemsNameParticles(es[..|es| - 1], c, inv, n);
    }
  }

  /** Every bucket item names a particle of `ps`. */
  ghost predicate ItemsValid(idx: Index<int>, ps: seq<Particle>) {
    forall c, k :: 0 <= k < |Bucket(idx.buckets, c)| ==> 0 <= Bucket(idx.buckets, c)[k] < |ps|
  }

  /** The rebuilt index only holds particles of `ps`. */
  lemma RebuiltValid(idx: Index<int>, ps: seq<Particle>)
    ensures ItemsValid(InsertAll(Clear(idx), Entries(ps)), ps)
  {
    var es := Entries(ps);
    var built := InsertAll(Clear(idx), es);
    forall c, k | 0 <= k < |Bucket(built.buckets, c)|
      ensures 0 <= Bucket(built.buckets, c)[k] < |ps|
    {
      BucketsAfterInsertAll(idx, es, c);
      ItemsNameParticles(es, c, idx.invCellSize, |ps|);
      assert Bucket(built.buckets, c)[k] in ItemsAt(es, c, idx.invCellSize);
    }
  }

  /** What a query gathers comes from the buckets. */
  lemma {:induction false} GatherValid(idx: Index<int>, ps: seq<Particle>, q: Cell, offsets: seq<Cell>)
    requires ItemsValid(idx, ps)
    ensures Candidates(ps, Gather(idx.buckets, q, offsets))
  {
    if |offsets| > 0 {
      var init := offsets[..|offsets| - 1];
      var c := Add(q, offsets[|offsets| - 1]);
      GatherValid(idx, ps, q, init);
      var g := Gather(idx.buckets, q, init);
      var b := Bucket(idx.buckets, c);
      forall k | 0 <= k < |g + b|
        ensures 0 <= (g + b)[k] < |ps|
      {
        if k >= |g| {
          assert (g + b)[k] == b[k - |g|];
          assert 0 <= Bucket(idx.buckets, c)[k - |g|] < |ps|;
        }
      }
      assert Gather(idx.buckets, q, offsets) == g + b;
    }
  }

  // ---------------------------------------------------------------------------
  // Neighbour filtering of the density pass

  /** Every candidate names a particle. */
  predicate Candidates(ps: seq<Particle>, neigh: seq<int>) {
    forall k :: 0 <= k < |neigh| ==> 0 <= neigh[k] < |ps|
  }

  /**
   * The reference filter: the candidates other than particle `i` that the
   * distance test `close` accepts, in candidate order.
   */
  function KeepNeighbors(ps: seq<Particle>, i: nat, neigh: seq<int>, close: (Vec2, Vec2) -> bool): seq<int>
    requires i < |ps| && Candidates(ps, neigh)
  {
    if |neigh| == 0 then []
    else
      var j := neigh[|neigh| - 1];
      KeepNeighbors(ps, i, neigh[..|neigh| - 1], close)
        + (if j != i && close(ps[i].pos, ps[j].pos) then [j] else [])
  }

  /** The filter loop of the density pass over the query result. */
  method FilterNeighbors(ps: seq<Particle>, i: nat, neigh: seq<int>, close: (Vec2, Vec2) -> bool)
    returns (nbrs: seq<int>)
    requires i < |ps| && Candidates(ps, neigh)
    ensures nbrs == KeepNeighbors(ps, i, neigh, close)
    ensures i !in nbrs
    ensures forall t :: t in nbrs ==> 0 <= t < |ps| && close(ps[i].pos, ps[t].pos)
  {
    nbrs := [];
    var j := 0;
    while j < |neigh|
      invariant 0 <= j <= |neigh|
      invariant nbrs == KeepNeighbors(ps, i, neigh[..j], close)
    {
      assert neigh[..j + 1][..j] == neigh[..j];
      if neigh[j] == i {
        j := j + 1;
        continue;
      }
      if close(ps[i].pos, ps[neigh[j]].pos) {
        nbrs := nbrs + [neigh[j]];
      }
      j := j + 1;
    }
    assert neigh[..j] == neigh;
    KeepSound(ps, i, neigh, close);
  }

  /** The filter keeps no particle other than close ones, and never `i` itself. */
  lemma {:induction false} KeepSound(ps: seq<Particle>, i: nat, neigh: seq<int>, close: (Vec2, Vec2) -> bool)
    requires i < |ps| && Candidates(ps, neigh)
    ensures i !in KeepNeighbors(ps, i, neigh, close)
    ensures forall t :: t in KeepNeighbors(ps, i, neigh, close) ==> 0 <= t < |ps| && close(ps[i].pos, ps[t].pos)
  {
    if |neigh| > 0 {
      KeepSound(ps, i, neigh[..|neigh| - 1], close);
    }
  }

  /**
   * Each kept particle is kept as often as it was a candidate; every other
   * particle is dropped.
   */
  lemma {:induction false} KeepCount(ps: seq<Particle>, i: nat, neigh: seq<int>, close: (Vec2, Vec2) -> bool, t: int)
    requires i < |ps| && Candidates(ps, neigh)
    ensures multiset(KeepNeighbors(ps, i, neigh, close))[t]
      == if t != i && 0 <= t < |ps| && close(ps[i].pos, ps[t].pos) then multiset(neigh)[t] else 0
  {
    if |neigh| > 0 {
      var init := neigh[..|neigh| - 1];
      assert neigh == init + [neigh[|neigh| - 1]];
      KeepCount(ps, i, init, close, t);
    }
  }

  /** `a` is `b` with some elements left out, order kept. */
  predicate IsSubsequence(a: seq<int>, b: seq<int>)
    decreases |b|
  {
    if |a| == 0 then true
    else if |b| == 0 then false
    else if a[|a| - 1] == b[|b| - 1] then IsSubsequence(a[..|a| - 1], b[..|b| - 1])
    else IsSubsequence(a, b[..|b| - 1])
  }

  /** Every sequence is a subsequence of itself extended at the end. */
  lemma {:induction false} SubsequenceOfLonger(a: seq<int>, b: seq<int>, x: int)
    requires IsSubsequence(a, b)
    ensures IsSubsequence(a, b + [x])
    decreases |b|
  {
    if |a| > 0 {
      assert (b + [x])[..|b|] == b;
      if a[|a| - 1] == x {
        SubsequenceDropLast(a, b);
      }
    }
  }

  /** A subsequence stays one when its last element is dropped. */
  lemma {:induction false} SubsequenceDropLast(a: seq<int>, b: seq<int>)
    requires |a| > 0 && IsSubsequence(a, b)
    ensures IsSubsequence(a[..|a| - 1], b)
    decreases |b|
  {
    var a' := a[..|a| - 1];
    if |a'| > 0 && |b| > 0 {
      if a[|a| - 1] == b[|b| - 1] {
        if a'[|a'| - 1] == b[|b| - 1] {
          SubsequenceDropLast(a', b[..|b| - 1]);
        } else {
          assert IsSubsequence(a', b[..|b| - 1]);
        }
      } else {
        SubsequenceDropLast(a, b[..|b| - 1]);
        if a'[|a'| - 1] == b[|b| - 1] {
          SubsequenceDropLast(a', b[..|b| - 1]);
        }
      }
    }
  }

  /** The filter keeps the candidates' order: its result is a subsequence of them. */
  lemma {:induction false} KeepIsSubsequence(ps: seq<Particle>, i: nat, neigh: seq<int>, close: (Vec2, Vec2) -> bool)
    requires i < |ps| && Candidates(ps, neigh)
    ensures IsSubsequence(KeepNeighbors(ps, i, neigh, close), neigh)
  {
    if |neigh| > 0 {
      var init := neigh[..|neigh| - 1];
      var j := neigh[|neigh| - 1];
      var kept := KeepNeighbors(ps, i, init, close);
      KeepIsSubsequence(ps, i, init, close);
      if j != i && close(ps[i].pos, ps[j].pos) {
        assert (kept + [j])[..|kept|] == kept;
      } else {
        assert KeepNeighbors(ps, i, neigh, close) == kept;
        SubsequenceOfLonger(kept, init, j);
        assert init + [j] == neigh;
      }
    }
  }

  /**
   * The neighbour list of particle `i` in the density pass: the query at the
   * particle's position, then the filter.
   */
  method DensityNeighbors(idx: Index<int>, ps: seq<Particle>, i: nat, close: (Vec2, Vec2) -> bool)
    returns (nbrs: seq<int>)
    requires i < |ps| && ItemsValid(idx, ps)
    ensures var q := Discretize(Lift(ps[i].pos), idx.invCellSize);
      var neigh := Gather(idx.buckets, q, idx.offsets);
      Candidates(ps, neigh) && nbrs == KeepNeighbors(ps, i, neigh, close)
    ensures i !in nbrs
    ensures forall t :: t in nbrs ==> 0 <= t < |ps| && close(ps[i].pos, ps[t].pos)
  {
    var neigh := Neighbors(idx, Lift(ps[i].pos), []);
    GatherValid(idx, ps, Discretize(Lift(ps[i].pos), idx.invCellSize), idx.offsets);
    assert neigh == Gather(idx.buckets, Discretize(Lift(ps[i].pos), idx.invCellSize), idx.offsets);
    nbrs := FilterNeighbors(ps, i, neigh, close);
  }

  // ---------------------------------------------------------------------------
  // Completeness with the real distance test

  /** The density pass's distance test: the squared distance is below the squared radius. */
  predicate WithinRadius(pi: Vec2, pj: Vec2) {
    var rij := Minus(pj, pi);
    Dot(rij, rij) < Rsq
  }

  /** A square below h^2 has its root strictly between -h and h. */
  lemma SquareBelow(a: real, b: real, h: real)
    requires h > 0.0 && a * a + b * b < h * h
    ensures -h < a < h
  {
    SquareNonNegative(b);
    SquareOutside(a, h);
  }

  lemma SquareNonNegative(b: real)
    ensures b * b >= 0.0
  {
  }

  /** Outside (-h, h) a square is at least h^2. */
  lemma SquareOutside(a: real, h: real)
    requires h > 0.0
    ensures a >= h || a <= -h ==> a * a >= h * h
  {
    if a >= h {
      SquareAtLeast(a, h);
    } else if a <= -h {
      SquareAtLeast(-a, h);
      assert (-a) * (-a) == a * a;
    }
  }

  lemma SquareAtLeast(a: real, h: real)
    requires a >= h > 0.0
    ensures a * a >= h * h
  {
    MulAtLeast(a, h, a);
    MulAtLeast(a, h, h);
    Transitive(a * a, a * h, h * h);
  }

  lemma MulAtLeast(a: real, b: real, c: real)
    requires a >= b && c >= 0.0
    ensures a * c >= b * c && c * a >= c * b
  {
  }

  lemma Transitive(x: real, y: real, z: real)
    requires x >= y >= z
    ensures x >= z
  {
  }

  /** Two particles within the radius get cells in each other's 2D neighbourhood. */
  lemma CloseParticlesNeighborCells(pi: Vec2, pj: Vec2, inv: real)
    requires R * inv == 1.0
    requires WithinRadius(pi, pj)
    ensures InNeighborhood(Sub(Discretize(Lift(pj), inv), Discretize(Lift(pi), inv)), true)
  {
    var d := Minus(pj, pi);
    SquareBelow(d.x, d.y, R);
    SquareBelow(d.y, d.x, R);
    FloorLocality(pj.x, pi.x, R, inv);
    FloorLocality(pj.y, pi.y, R, inv);
    assert CellOf(0.0, inv) == 0;
  }

  /**
   * Completeness: once the index has been rebuilt with cell size R, the
   * density pass lists every other particle within the radius of particle
   * `i` exactly once.
   */
  lemma DensityFindsAllWithinRadius(idx: Index<int>, ps: seq<Particle>, i: nat, j: nat)
    requires DistinctCells(idx.offsets)
    requires forall o :: o in idx.offsets <==> InNeighborhood(o, true)
    requires R * idx.invCellSize == 1.0
    requires i < |ps| && j < |ps| && i != j
    requires WithinRadius(ps[i].pos, ps[j].pos)
    ensures var built := InsertAll(Clear(idx), Entries(ps));
      var neigh := Gather(built.buckets, Discretize(Lift(ps[i].pos), idx.invCellSize), built.offsets);
      Candidates(ps, neigh) && multiset(KeepNeighbors(ps, i, neigh, WithinRadius))[j] == 1
  {
    var built := InsertAll(Clear(idx), Entries(ps));
    var neigh := Gather(built.buckets, Discretize(Lift(ps[i].pos), idx.invCellSize), built.offsets);
    RebuiltCandidates(idx, ps, Lift(ps[i].pos));
    QueryFindsClose(idx, ps, i, j);
    KeepCount(ps, i, neigh, WithinRadius, j);
  }

  lemma RebuiltCandidates(idx: Index<int>, ps: seq<Particle>, p: Vec3)
    ensures var built := InsertAll(Clear(idx), Entries(ps));
      Candidates(ps, Gather(built.buckets, Discretize(p, idx.invCellSize), built.offsets))
  {
    var built := InsertAll(Clear(idx), Entries(ps));
    RebuiltValid(idx, ps);
    GatherValid(built, ps, Discretize(p, idx.invCellSize), built.offsets);
    BucketsAfterInsertAll(idx, Entries(ps), Origin);
  }

  lemma QueryFindsClose(idx: Index<int>, ps: seq<Particle>, i: nat, j: nat)
    requires DistinctCells(idx.offsets)
    requires forall o :: o in idx.offsets <==> InNeighborhood(o, true)
    requires R * idx.invCellSize == 1.0
    requires i < |ps| && j < |ps|
    requires WithinRadius(ps[i].pos, ps[j].pos)
    ensures var built := InsertAll(Clear(idx), Entries(ps));
      multiset(Gather(built.buckets, Discretize(Lift(ps[i].pos), idx.invCellSize), built.offsets))[j] == 1
  {
    EntriesDistinct(ps);
    assert Entries(ps)[j] == Entry(Lift(ps[j].pos), j);
    QueryFindsNeighbors(idx, true, Entries(ps), j, j, Lift(ps[i].pos));
    CloseParticlesNeighborCells(ps[i].pos, ps[j].pos, idx.invCellSize);
  }

  /**
   * The query at a particle's own position, after the rebuild, returns that
   * particle exactly once; this is why the density pass skips the particle
   * itself.
   */
  lemma QuerySeesSelfOnce(idx: Index<int>, ps: seq<Particle>, i: nat, twoD: bool)
    requires DistinctCells(idx.offsets)
    requires forall o :: o in idx.offsets <==> InNeighborhood(o, twoD)
    requires i < |ps|
    ensures var built := InsertAll(Clear(idx), Entries(ps));
      var neigh := Gather(built.buckets, Discretize(Lift(ps[i].pos), idx.invCellSize), built.offsets);
      multiset(neigh)[i] == 1
  {
    BucketsAfterInsertAll(idx, Entries(ps), Origin);
    EntriesDistinct(ps);
    assert Entries(ps)[i] == Entry(Lift(ps[i].pos), i);
    QueryFindsNeighbors(idx, twoD, Entries(ps), i, i, Lift(ps[i].pos));
    SelfOffset(Discretize(Lift(ps[i].pos), idx.invCellSize), twoD);
  }

  lemma SelfOffset(c: Cell, twoD: bool)
    ensures InNeighborhood(Sub(c, c), twoD)
  {
  }

  /** After the rebuild, no query returns a particle twice. */
  lemma QueryNoDuplicates(idx: Index<int>, ps: seq<Particle>, p: Vec3, twoD: bool, t: int)
    requires DistinctCells(idx.offsets)
    requires forall o :: o in idx.offsets <==> InNeighborhood(o, twoD)
    ensures var built := InsertAll(Clear(idx), Entries(ps));
      multiset(Gather(built.buckets, Discretize(p, idx.invCellSize), built.offsets))[t] <= 1
  {
    var es := Entries(ps);
    BucketsAfterInsertAll(idx, es, Origin);
    if 0 <= t < |ps| {
      EntriesDistinct(ps);
      assert es[t].item == t;
      QueryFindsNeighbors(idx, twoD, es, t, t, p);
    } else {
      assert forall k :: 0 <= k < |es| ==> es[k].item != t;
      QueryOnlyEntered(idx, es, t, p);
    }
  }
}
