/** The moving-average recurrence of the wave surface generator and its tiling into parts.
    Everything here is the specification: the value that every cell of the surface must get,
    and the shape of the parts. The arithmetic of the elements is left uninterpreted. */
module Recurrence {
  import opened Arithmetic
  import opened Grid

  datatype State = Submitted | Completed | Initial

  /** A tile together with its halo: the box from `begin` to `end` is stored, the box from
      `begin + offset` to `end` is computed. */
  datatype Part = Part(begin: Vec, offset: Vec, end: Vec, index: int, state: State) {

    function Low(): Vec { begin.Plus(offset) }

    function Size(): Vec { end.Minus(begin) }
  }

  /** The n-th number after seeding is `draw(n)`: it stands for the seed and the variance. */
  datatype Problem<!T> = Problem(zero: T, add: (T, T) -> T, mul: (T, T) -> T, draw: int -> T,
                                 phi: seq<T>, phiSize: Vec, full: Vec, maxPart: Vec)
  {
    ghost predicate Valid() {
      && AtMost(ONES, full)
      && AtMost(ONES, maxPart)
      && AtMost(ORIGIN, phiSize)
      && |phi| == phiSize.Product()
    }

    function PartSize(): Vec { MinVec(maxPart, full) }

    function NumParts(): Vec
      requires AtMost(ONES, full) && AtMost(ONES, maxPart)
    {
      var size := PartSize();
      Vec(full.i / size.i, full.j / size.j, full.k / size.k)
    }

    predicate InGrid(g: Vec)
      requires AtMost(ONES, full) && AtMost(ONES, maxPart)
    {
      InBox(g, ORIGIN, NumParts())
    }

    /** The part at the place `g` of the grid of parts, not yet submitted. */
    function PartAt(g: Vec): Part
      requires AtMost(ONES, full) && AtMost(ONES, maxPart)
    {
      var size, num := PartSize(), NumParts();
      var low := Vec(g.i * size.i, g.j * size.j, g.k * size.k);
      var offset := MinVec(low, phiSize);
      var end := Vec(if g.i == num.i - 1 then full.i else low.i + size.i,
                     if g.j == num.j - 1 then full.j else low.j + size.j,
                     if g.k == num.k - 1 then full.k else low.k + size.k);
      Part(low.Minus(offset), offset, end, Index(num, g), Initial)
    }

    /** The place in the grid of the part that computes the cell `c`. */
    function Owner(c: Vec): Vec
      requires AtMost(ONES, full) && AtMost(ONES, maxPart)
    {
      var size, num := PartSize(), NumParts();
      Vec(Min(c.i / size.i, num.i - 1), Min(c.j / size.j, num.j - 1), Min(c.k / size.k, num.k - 1))
    }

    /** White noise: the generator is seeded anew for each part, which draws its cells in order. */
    function Noise(c: Vec): T
      requires AtMost(ONES, full) && AtMost(ONES, maxPart)
    {
      var part := PartAt(Owner(c));
      draw(Index(part.end.Minus(part.Low()), c.Minus(part.Low())))
    }

    function Lag(c: Vec): Vec { MinVec(c.Plus(ONES), phiSize) }

    /** What the cell `c - d` holds when the sum for the cell `c` is computed. */
    ghost function Value(c: Vec, d: Vec): T
      requires Valid() && InBox(c, ORIGIN, full) && InBox(d, ORIGIN, Lag(c))
      decreases c.i, c.j, c.k, 0, d.i, d.j, d.k
    {
      if d == ORIGIN then Noise(c) else Final(c.Minus(d))
    }

    /** The sum for the cell `c` when three nested loops over the lags have reached `(l,m,n)`. */
    ghost function Sum(c: Vec, l: int, m: int, n: int): T
      requires Valid() && InBox(c, ORIGIN, full)
      requires 0 <= l <= Lag(c).i && 0 <= m <= Lag(c).j && 0 <= n <= Lag(c).k
      requires (0 < m ==> l < Lag(c).i) && (0 < n ==> l < Lag(c).i && m < Lag(c).j)
      decreases c.i, c.j, c.k, 0, l, m, n
    {
      if 0 < n then
        var d := Vec(l, m, n - 1);
        CellOfIndex(phiSize, d);
        add(Sum(c, l, m, n - 1), mul(phi[Index(phiSize, d)], Value(c, d)))
      else if 0 < m then Sum(c, l, m - 1, Lag(c).k)
      else if 0 < l then Sum(c, l - 1, Lag(c).j, 0)
      else zero
    }

    /** The value of the cell `c` of the finished surface. */
    ghost function Final(c: Vec): T
      requires Valid() && InBox(c, ORIGIN, full)
      decreases c.i, c.j, c.k, 1, 0, 0, 0
    {
      Sum(c, Lag(c).i, 0, 0)
    }

    /** The recurrence, read off a finished surface: the first `n` coefficients, in their order, each
        one times the cell at its distance behind `c`, or times the noise of `c` for no distance at
        all; coefficients that reach beyond the edge do not count. */
    ghost function Fold(z: seq<T>, c: Vec, n: int): T
      requires Valid() && |z| == full.Product() && InBox(c, ORIGIN, full) && 0 <= n <= |phi|
      decreases n
    {
      if n == 0 then zero
      else
        var sum := Fold(z, c, n - 1);
        SizesArePositive(phiSize);
        var d := CellOf(phiSize, n - 1);
        IndexCellOf(phiSize, n - 1);
        if !AtMost(d, c) then sum
        else
          CellOfIndex(full, c.Minus(d));
          add(sum, mul(phi[n - 1], if d == ORIGIN then Noise(c) else z[Index(full, c.Minus(d))]))
    }

    /** Every cell of the surface satisfies the recurrence. */
    ghost predicate Solves(z: seq<T>)
      requires Valid()
    {
      && |z| == full.Product()
      && forall c | InBox(c, ORIGIN, full) :: 0 <= Index(full, c) < |z| && z[Index(full, c)] == Fold(z, c, |phi|)
    }

    /** The cells behind `c` are final. */
    ghost predicate FinalBehind(z: seq<T>, c: Vec)
      requires Valid() && |z| == full.Product() && InBox(c, ORIGIN, full)
    {
      forall d | InBox(d, ORIGIN, Lag(c)) && d != ORIGIN ::
        0 <= Index(full, c.Minus(d)) < |z| && z[Index(full, c.Minus(d))] == Final(c.Minus(d))
    }
  }

  lemma SizesArePositive(s: Vec)
    requires AtMost(ORIGIN, s) && 0 < s.Product()
    ensures AtMost(ONES, s)
  {
  }

  /** One step of the fold. */
  lemma FoldStep<T>(p: Problem<T>, z: seq<T>, c: Vec, d: Vec)
    requires p.Valid() && |z| == p.full.Product() && InBox(c, ORIGIN, p.full) && InBox(d, ORIGIN, p.phiSize)
    ensures 0 <= Index(p.phiSize, d) < |p.phi|
    ensures var n := Index(p.phiSize, d);
            if !AtMost(d, c) then p.Fold(z, c, n + 1) == p.Fold(z, c, n)
            else
              && 0 <= Index(p.full, c.Minus(d)) < |z|
              && p.Fold(z, c, n + 1) ==
                   p.add(p.Fold(z, c, n),
                         p.mul(p.phi[n], if d == ORIGIN then p.Noise(c) else z[Index(p.full, c.Minus(d))]))
  {
    CellOfIndex(p.phiSize, d);
    if AtMost(d, c) { CellOfIndex(p.full, c.Minus(d)); }
  }

  /** The rest of a row that reaches beyond the edge does not count. */
  lemma {:induction false} SkipRow<T>(p: Problem<T>, z: seq<T>, c: Vec, l: int, m: int, k: int)
    requires p.Valid() && |z| == p.full.Product() && InBox(c, ORIGIN, p.full)
    requires 0 <= l < p.phiSize.i && 0 <= m < p.phiSize.j && 0 <= k <= p.phiSize.k
    requires c.i < l || c.j < m || c.k < k
    ensures 0 <= Index(p.phiSize, Vec(l, m, k)) <= Index(p.phiSize, Vec(l, m + 1, 0)) <= |p.phi|
    ensures p.Fold(z, c, Index(p.phiSize, Vec(l, m + 1, 0))) == p.Fold(z, c, Index(p.phiSize, Vec(l, m, k)))
    decreases p.phiSize.k - k
  {
    IndexCarry(p.phiSize, l, m);
    RowFits(p.phiSize, l, m);
    if k < p.phiSize.k {
      IndexNext(p.phiSize, l, m, k);
      FoldStep(p, z, c, Vec(l, m, k));
      SkipRow(p, z, c, l, m, k + 1);
    }
  }

  lemma RowFits(s: Vec, l: int, m: int)
    requires AtMost(ORIGIN, s) && 0 <= l < s.i && 0 <= m < s.j
    ensures 0 <= Index(s, Vec(l, m, 0)) <= Index(s, Vec(l, m + 1, 0)) <= s.Product()
  {
    MulLess(l, s.i, s.j);
    MulMono(0, l * s.j + m, s.k);
    MulMono(l * s.j + m, l * s.j + m + 1, s.k);
    MulMono(l * s.j + m + 1, s.i * s.j, s.k);
  }

  lemma {:induction false} SkipPlane<T>(p: Problem<T>, z: seq<T>, c: Vec, l: int, m: int)
    requires p.Valid() && |z| == p.full.Product() && InBox(c, ORIGIN, p.full)
    requires 0 <= l < p.phiSize.i && 0 <= m <= p.phiSize.j && (c.i < l || c.j < m)
    ensures 0 <= Index(p.phiSize, Vec(l, m, 0)) <= Index(p.phiSize, Vec(l + 1, 0, 0)) <= |p.phi|
    ensures p.Fold(z, c, Index(p.phiSize, Vec(l + 1, 0, 0))) == p.Fold(z, c, Index(p.phiSize, Vec(l, m, 0)))
    decreases p.phiSize.j - m
  {
    IndexCarry(p.phiSize, l, 0);
    PlaneFits(p.phiSize, l);
    if m < p.phiSize.j {
      SkipRow(p, z, c, l, m, 0);
      SkipPlane(p, z, c, l, m + 1);
    }
  }

  lemma PlaneFits(s: Vec, l: int)
    requires AtMost(ORIGIN, s) && 0 <= l < s.i
    ensures 0 <= Index(s, Vec(l + 1, 0, 0)) <= s.Product()
  {
    MulMono(0, l + 1, s.j);
    MulMono(l + 1, s.i, s.j);
    MulMono(0, (l + 1) * s.j, s.k);
    MulMono((l + 1) * s.j, s.i * s.j, s.k);
  }

  lemma {:induction false} SkipRest<T>(p: Problem<T>, z: seq<T>, c: Vec, l: int)
    requires p.Valid() && |z| == p.full.Product() && InBox(c, ORIGIN, p.full)
    requires 0 <= l <= p.phiSize.i && (c.i < l || l == p.phiSize.i)
    ensures 0 <= Index(p.phiSize, Vec(l, 0, 0)) <= |p.phi|
    ensures p.Fold(z, c, |p.phi|) == p.Fold(z, c, Index(p.phiSize, Vec(l, 0, 0)))
    decreases p.phiSize.i - l
  {
    if l < p.phiSize.i {
      SkipPlane(p, z, c, l, 0);
      SkipRest(p, z, c, l + 1);
    } else {
      IndexOrigin(p.phiSize);
    }
  }

  /** The nested loops up to `(l,m,n)` compute the fold up to this distance. */
  lemma {:induction false} FoldIsSum<T>(p: Problem<T>, z: seq<T>, c: Vec, l: int, m: int, n: int)
    requires p.Valid() && |z| == p.full.Product() && InBox(c, ORIGIN, p.full) && p.FinalBehind(z, c)
    requires 0 <= l <= p.Lag(c).i && 0 <= m <= p.Lag(c).j && 0 <= n <= p.Lag(c).k
    requires (0 < m ==> l < p.Lag(c).i) && (0 < n ==> l < p.Lag(c).i && m < p.Lag(c).j)
    ensures 0 <= Index(p.phiSize, Vec(l, m, n)) <= |p.phi|
    ensures p.Fold(z, c, Index(p.phiSize, Vec(l, m, n))) == p.Sum(c, l, m, n)
    decreases l, m, n
  {
    hide Index, Problem.Fold, Problem.FinalBehind;
    if 0 < n {
      FoldIsSum(p, z, c, l, m, n - 1);
      FoldOne(p, z, c, l, m, n - 1);
    } else if 0 < m {
      FoldIsSum(p, z, c, l, m - 1, p.Lag(c).k);
      RowIsDone(p, z, c, l, m - 1);
    } else if 0 < l {
      FoldIsSum(p, z, c, l - 1, p.Lag(c).j, 0);
      PlaneIsDone(p, z, c, l - 1);
    } else {
      FoldBegins(p, z, c);
    }
  }

  lemma FoldBegins<T>(p: Problem<T>, z: seq<T>, c: Vec)
    requires p.Valid() && |z| == p.full.Product() && InBox(c, ORIGIN, p.full)
    ensures Index(p.phiSize, Vec(0, 0, 0)) == 0 && p.Fold(z, c, 0) == p.zero
  {
  }

  lemma FoldOne<T>(p: Problem<T>, z: seq<T>, c: Vec, l: int, m: int, n: int)
    requires p.Valid() && |z| == p.full.Product() && InBox(c, ORIGIN, p.full) && p.FinalBehind(z, c)
    requires InBox(Vec(l, m, n), ORIGIN, p.Lag(c))
    ensures 0 <= Index(p.phiSize, Vec(l, m, n)) < Index(p.phiSize, Vec(l, m, n + 1)) <= |p.phi|
    ensures p.Fold(z, c, Index(p.phiSize, Vec(l, m, n + 1)))
            == p.add(p.Fold(z, c, Index(p.phiSize, Vec(l, m, n))),
                     p.mul(p.phi[Index(p.phiSize, Vec(l, m, n))], p.Value(c, Vec(l, m, n))))
  {
    IndexNext(p.phiSize, l, m, n);
    hide Index, Problem.Fold;
    FoldStep(p, z, c, Vec(l, m, n));
  }

  lemma RowIsDone<T>(p: Problem<T>, z: seq<T>, c: Vec, l: int, m: int)
    requires p.Valid() && |z| == p.full.Product() && InBox(c, ORIGIN, p.full)
    requires 0 <= l < p.Lag(c).i && 0 <= m < p.Lag(c).j
    ensures 0 <= Index(p.phiSize, Vec(l, m, p.Lag(c).k)) <= Index(p.phiSize, Vec(l, m + 1, 0)) <= |p.phi|
    ensures p.Fold(z, c, Index(p.phiSize, Vec(l, m + 1, 0)))
            == p.Fold(z, c, Index(p.phiSize, Vec(l, m, p.Lag(c).k)))
  {
    RowFits(p.phiSize, l, m);
    if p.Lag(c).k < p.phiSize.k {
      SkipRow(p, z, c, l, m, p.Lag(c).k);
    } else {
      IndexCarry(p.phiSize, l, m);
    }
  }

  lemma PlaneIsDone<T>(p: Problem<T>, z: seq<T>, c: Vec, l: int)
    requires p.Valid() && |z| == p.full.Product() && InBox(c, ORIGIN, p.full) && 0 <= l < p.Lag(c).i
    ensures 0 <= Index(p.phiSize, Vec(l, p.Lag(c).j, 0)) <= Index(p.phiSize, Vec(l + 1, 0, 0)) <= |p.phi|
    ensures p.Fold(z, c, Index(p.phiSize, Vec(l + 1, 0, 0)))
            == p.Fold(z, c, Index(p.phiSize, Vec(l, p.Lag(c).j, 0)))
  {
    PlaneFits(p.phiSize, l);
    if p.Lag(c).j < p.phiSize.j {
      SkipPlane(p, z, c, l, p.Lag(c).j);
    } else {
      IndexCarry(p.phiSize, l, 0);
    }
  }

  lemma FoldIsFinal<T>(p: Problem<T>, z: seq<T>, c: Vec)
    requires p.Valid() && |z| == p.full.Product() && InBox(c, ORIGIN, p.full) && p.FinalBehind(z, c)
    ensures p.Fold(z, c, |p.phi|) == p.Final(c)
  {
    FoldIsSum(p, z, c, p.Lag(c).i, 0, 0);
    SkipRest(p, z, c, p.Lag(c).i);
  }

  /** The final values satisfy the recurrence, and nothing else does. */
  lemma FinalSolves<T>(p: Problem<T>, z: seq<T>)
    requires p.Valid() && |z| == p.full.Product()
    ensures p.Solves(z) <==>
              forall c | InBox(c, ORIGIN, p.full) :: 0 <= Index(p.full, c) < |z| && z[Index(p.full, c)] == p.Final(c)
  {
    if p.Solves(z) {
      forall c | InBox(c, ORIGIN, p.full)
        ensures 0 <= Index(p.full, c) < |z| && z[Index(p.full, c)] == p.Final(c)
      {
        SolutionIsFinal(p, z, c);
      }
    } else if forall c | InBox(c, ORIGIN, p.full) :: 0 <= Index(p.full, c) < |z| && z[Index(p.full, c)] == p.Final(c) {
      forall c | InBox(c, ORIGIN, p.full) ensures z[Index(p.full, c)] == p.Fold(z, c, |p.phi|) {
        assert forall d | InBox(d, ORIGIN, p.Lag(c)) :: InBox(c.Minus(d), ORIGIN, p.full);
        FoldIsFinal(p, z, c);
      }
    }
  }

  lemma {:induction false} SolutionIsFinal<T>(p: Problem<T>, z: seq<T>, c: Vec)
    requires p.Valid() && p.Solves(z) && InBox(c, ORIGIN, p.full)
    ensures 0 <= Index(p.full, c) < |z| && z[Index(p.full, c)] == p.Final(c)
    decreases c.i, c.j, c.k
  {
    forall d | InBox(d, ORIGIN, p.Lag(c)) && d != ORIGIN
      ensures 0 <= Index(p.full, c.Minus(d)) < |z| && z[Index(p.full, c.Minus(d))] == p.Final(c.Minus(d))
    {
      SolutionIsFinal(p, z, c.Minus(d));
    }
    FoldIsFinal(p, z, c);
  }

  /** Each part draws its cells in row-major order from the beginning of the stream. */
  lemma NoiseOfPart<T>(p: Problem<T>, g: Vec, n: int)
    requires p.Valid() && p.InGrid(g)
    requires var part := p.PartAt(g); 0 <= n < part.end.Minus(part.Low()).Product()
    ensures var part := p.PartAt(g);
            var size := part.end.Minus(part.Low());
            && AtMost(ONES, size)
            && var c := part.Low().Plus(CellOf(size, n)); InBox(c, ORIGIN, p.full) && p.Noise(c) == p.draw(n)
  {
    var part := p.PartAt(g);
    var size := part.end.Minus(part.Low());
    PartsTileDomain(p, g, ORIGIN);
    IndexCellOf(size, n);
    var c := part.Low().Plus(CellOf(size, n));
    PartsTileDomain(p, g, c);
    assert c.Minus(part.Low()) == CellOf(size, n);
  }

  /** Parts have the given size; only the last ones of a row take the rest in addition. */
  lemma PartSizes<T>(p: Problem<T>, g: Vec)
    requires p.Valid() && p.InGrid(g)
    ensures var part, size := p.PartAt(g), MinVec(p.maxPart, p.full);
            var out := part.end.Minus(part.Low());
            && AtMost(size, out) && out.i < 2 * size.i && out.j < 2 * size.j && out.k < 2 * size.k
            && part.offset == MinVec(part.Low(), p.phiSize)
  {
    var size, num := p.PartSize(), p.NumParts();
    AxisPart(p.full.i, size.i, num.i, g.i);
    AxisPart(p.full.j, size.j, num.j, g.j);
    AxisPart(p.full.k, size.k, num.k, g.k);
  }

  lemma AxisPart(full: int, size: int, num: int, g: int)
    requires 1 <= size <= full && num == full / size && 0 <= g < num
    ensures var end := if g == num - 1 then full else g * size + size; size <= end - g * size < 2 * size
  {
    assert full == num * size + full % size;
    if g == num - 1 { assert num * size == g * size + size; }
  }

  lemma QuotientIs(c: int, size: int, q: int)
    requires 0 < size
    ensures q * size <= c < q * size + size <==> c / size == q
  {
    assert c == (c / size) * size + c % size;
    if q * size <= c < q * size + size {
      DivModUnique(q, c - q * size, size);
    }
  }

  lemma QuotientAtLeast(c: int, size: int, q: int)
    requires 0 < size
    ensures q * size <= c <==> q <= c / size
  {
    assert c == (c / size) * size + c % size;
    if q <= c / size {
      MulMono(q, c / size, size);
    } else {
      MulMono(c / size + 1, q, size);
    }
  }

  /** One axis of the tiling: the ranges of the parts are disjoint and cover the axis. */
  lemma AxisTiling(full: int, size: int, num: int, g: int, c: int)
    requires 1 <= size <= full && num == full / size && 0 <= g < num
    ensures 0 <= g * size < (if g == num - 1 then full else g * size + size) <= full
    ensures g * size <= c < (if g == num - 1 then full else g * size + size)
            <==> 0 <= c < full && g == Min(c / size, num - 1)
  {
    MulMono(0, g, size);
    QuotientAtLeast(full, size, g + 1);
    assert (g + 1) * size == g * size + size;
    QuotientIs(c, size, g);
    QuotientAtLeast(c, size, g);
    QuotientAtLeast(c, size, 0);
  }

  /** The output boxes of the parts tile the domain: every cell lies in the box of exactly one
      part of the grid, and no part is empty or sticks out. */
  lemma PartsTileDomain<T>(p: Problem<T>, g: Vec, c: Vec)
    requires p.Valid() && p.InGrid(g)
    ensures AtMost(ORIGIN, p.PartAt(g).begin)
    ensures InBox(p.PartAt(g).Low(), ORIGIN, p.PartAt(g).end) && AtMost(p.PartAt(g).end, p.full)
    ensures InBox(c, p.PartAt(g).Low(), p.PartAt(g).end) <==> InBox(c, ORIGIN, p.full) && g == p.Owner(c)
  {
    var size, num := p.PartSize(), p.NumParts();
    AxisTiling(p.full.i, size.i, num.i, g.i, c.i);
    AxisTiling(p.full.j, size.j, num.j, g.j, c.j);
    AxisTiling(p.full.k, size.k, num.k, g.k, c.k);
  }

  lemma AxisOwner(full: int, size: int, c: int)
    requires 1 <= size <= full && 0 <= c < full
    ensures 0 <= Min(c / size, full / size - 1) < full / size
  {
    assert full == (full / size) * size + full % size;
  }

  lemma OwnerInGrid<T>(p: Problem<T>, c: Vec)
    requires p.Valid() && InBox(c, ORIGIN, p.full)
    ensures p.InGrid(p.Owner(c))
  {
    var size := p.PartSize();
    AxisOwner(p.full.i, size.i, c.i);
    AxisOwner(p.full.j, size.j, c.j);
    AxisOwner(p.full.k, size.k, c.k);
  }

  lemma DivMono(a: int, b: int, d: int)
    requires 0 <= a <= b && 0 < d
    ensures a / d <= b / d
  {
    assert a == (a / d) * d + a % d;
    assert b == (b / d) * d + b % d;
    if b / d < a / d { MulLess(b / d, a / d, d); }
  }

  /** Owners are ordered as their cells are, so a halo belongs to lower parts. */
  lemma OwnerMono<T>(p: Problem<T>, c: Vec, d: Vec)
    requires p.Valid() && AtMost(ORIGIN, c) && AtMost(c, d)
    ensures AtMost(p.Owner(c), p.Owner(d))
  {
    var size := p.PartSize();
    DivMono(c.i, d.i, size.i);
    DivMono(c.j, d.j, size.j);
    DivMono(c.k, d.k, size.k);
  }

  /** The halo of a part lies in the output boxes of other parts below it, whatever the lag. */
  lemma HaloInLowerParts<T>(p: Problem<T>, g: Vec, c: Vec)
    requires p.Valid() && p.InGrid(g)
    requires InBox(c, p.PartAt(g).begin, p.PartAt(g).end) && !InBox(c, p.PartAt(g).Low(), p.PartAt(g).end)
    ensures InBox(c, ORIGIN, p.full)
    ensures p.InGrid(p.Owner(c)) && AtMost(p.Owner(c), g) && p.Owner(c) != g
  {
    PartsTileDomain(p, g, c);
    var top := p.PartAt(g).end.Minus(ONES);
    PartsTileDomain(p, g, top);
    OwnerInGrid(p, c);
    OwnerMono(p, c, top);
  }
}
