/** The kernel that computes one part of the surface on some cluster node. */
module PartGenerator {
  import opened Grid
  import opened Recurrence

  /** The local box of the size `size` lies at `begin` in the domain. */
  ghost predicate Placed<T>(p: Problem<T>, begin: Vec, offset: Vec, size: Vec) {
    && p.Valid()
    && AtMost(ORIGIN, begin)
    && AtMost(begin.Plus(size), p.full)
    && AtMost(ORIGIN, offset)
    && AtMost(offset, size)
    && offset == MinVec(begin.Plus(offset), p.phiSize)
  }

  /** Inside the output box the lag of a local cell is the lag of the cell itself. */
  lemma LocalLag<T>(p: Problem<T>, begin: Vec, offset: Vec, size: Vec, c: Vec)
    requires Placed(p, begin, offset, size) && InBox(c, offset, size)
    ensures p.Lag(c) == p.Lag(begin.Plus(c))
  {
  }

  /** Seeds the generator and draws the cells from `lo` to `hi` in order. */
  method DrawNoise<T>(p: Problem<T>, zeta: array<T>, size: Vec, lo: Vec, hi: Vec)
    requires zeta.Length == size.Product() && AtMost(ORIGIN, lo) && AtMost(lo, hi) && AtMost(hi, size)
    modifies zeta
    ensures forall c | InBox(c, ORIGIN, size) ::
              At(zeta, size, c) == if InBox(c, lo, hi) then p.draw(Index(hi.Minus(lo), c.Minus(lo)))
                                   else old(At(zeta, size, c))
  {
    var n := 0;
    for i := lo.i to hi.i
      invariant n == Index(hi.Minus(lo), Vec(i, lo.j, lo.k).Minus(lo))
      invariant forall c | InBox(c, ORIGIN, size) ::
                  At(zeta, size, c) == if InBox(c, lo, hi) && Before(c, Vec(i, lo.j, lo.k))
                                       then p.draw(Index(hi.Minus(lo), c.Minus(lo))) else old(At(zeta, size, c))
    {
      for j := lo.j to hi.j
        invariant n == Index(hi.Minus(lo), Vec(i, j, lo.k).Minus(lo))
        invariant forall c | InBox(c, ORIGIN, size) ::
                    At(zeta, size, c) == if InBox(c, lo, hi) && Before(c, Vec(i, j, lo.k))
                                         then p.draw(Index(hi.Minus(lo), c.Minus(lo))) else old(At(zeta, size, c))
      {
        for k := lo.k to hi.k
          invariant n == Index(hi.Minus(lo), Vec(i, j, k).Minus(lo))
          invariant forall c | InBox(c, ORIGIN, size) ::
                      At(zeta, size, c) == if InBox(c, lo, hi) && Before(c, Vec(i, j, k))
                                           then p.draw(Index(hi.Minus(lo), c.Minus(lo))) else old(At(zeta, size, c))
        {
          Put(zeta, size, Vec(i, j, k), p.draw(n));
          n := n + 1;
        }
        IndexCarry(hi.Minus(lo), i - lo.i, j - lo.j);
      }
      IndexCarry(hi.Minus(lo), i - lo.i, 0);
    }
  }

  /** The weighted sum over the lags of one cell. */
  method WeightedSum<T>(p: Problem<T>, zeta: array<T>, size: Vec, here: Vec, ghost c: Vec) returns (sum: T)
    requires p.Valid() && zeta.Length == size.Product()
    requires InBox(here, ORIGIN, size) && InBox(c, ORIGIN, p.full) && p.Lag(here) == p.Lag(c)
    requires forall d | InBox(d, ORIGIN, p.Lag(c)) :: At(zeta, size, here.Minus(d)) == p.Value(c, d)
    ensures sum == p.Final(c)
  {
    var lag := p.Lag(here);
    sum := p.zero;
    for l := 0 to lag.i
      invariant sum == p.Sum(c, l, 0, 0)
    {
      for m := 0 to lag.j
        invariant sum == p.Sum(c, l, m, 0)
      {
        for n := 0 to lag.k
          invariant sum == p.Sum(c, l, m, n)
        {
          var d := Vec(l, m, n);
          CellOfIndex(p.phiSize, d);
          CellOfIndex(size, here.Minus(d));
          assert InBox(d, ORIGIN, p.Lag(c));
          sum := p.add(sum, p.mul(p.phi[Index(p.phiSize, d)], zeta[Index(size, here.Minus(d))]));
        }
      }
    }
  }

  /** The cells before `at` of the output box are final, the other ones still hold noise. */
  ghost predicate SweptUpTo<T>(p: Problem<T>, zeta: array<T>, begin: Vec, offset: Vec, size: Vec, at: Vec)
    requires Placed(p, begin, offset, size) && zeta.Length == size.Product()
    reads zeta
  {
    forall c | InBox(c, ORIGIN, size) ::
      At(zeta, size, c) == if InBox(c, offset, size) && !Before(c, at) then p.Noise(begin.Plus(c))
                           else p.Final(begin.Plus(c))
  }

  method SweepCell<T>(p: Problem<T>, zeta: array<T>, begin: Vec, offset: Vec, size: Vec, here: Vec)
    requires Placed(p, begin, offset, size) && zeta.Length == size.Product() && InBox(here, offset, size)
    requires SweptUpTo(p, zeta, begin, offset, size, here)
    modifies zeta
    ensures SweptUpTo(p, zeta, begin, offset, size, here.(k := here.k + 1))
  {
    ghost var c := begin.Plus(here);
    LocalLag(p, begin, offset, size, here);
    forall d | InBox(d, ORIGIN, p.Lag(c)) ensures At(zeta, size, here.Minus(d)) == p.Value(c, d) {
      assert InBox(here.Minus(d), ORIGIN, size);
      assert begin.Plus(here.Minus(d)) == c.Minus(d);
    }
    var sum := WeightedSum(p, zeta, size, here, c);
    Put(zeta, size, here, sum);
  }

  /** Turns noise into the surface in place. */
  method Sweep<T>(p: Problem<T>, zeta: array<T>, begin: Vec, offset: Vec, size: Vec)
    requires Placed(p, begin, offset, size) && zeta.Length == size.Product()
    requires SweptUpTo(p, zeta, begin, offset, size, offset)
    modifies zeta
    ensures forall c | InBox(c, ORIGIN, size) :: At(zeta, size, c) == p.Final(begin.Plus(c))
  {
    for i := offset.i to size.i
      invariant SweptUpTo(p, zeta, begin, offset, size, Vec(i, offset.j, offset.k))
    {
      for j := offset.j to size.j
        invariant SweptUpTo(p, zeta, begin, offset, size, Vec(i, j, offset.k))
      {
        for k := offset.k to size.k
          invariant SweptUpTo(p, zeta, begin, offset, size, Vec(i, j, k))
        {
          SweepCell(p, zeta, begin, offset, size, Vec(i, j, k));
        }
      }
    }
  }

  /** What the kernel sends: upstream it carries its halo, downstream its output box. */
  datatype Phase = Upstream | Downstream

  predicate Sent(offset: Vec, phase: Phase, c: Vec) {
    AtMost(offset, c) <==> phase == Downstream
  }

  /** The sent elements among the first `n` of the local box, in row-major order. */
  ghost function Pack<T>(z: seq<T>, size: Vec, offset: Vec, phase: Phase, n: int): seq<T>
    requires AtMost(ONES, size) && 0 <= n <= |z|
    decreases n
  {
    if n <= 0 then []
    else Pack(z, size, offset, phase, n - 1)
         + if Sent(offset, phase, CellOf(size, n - 1)) then [z[n - 1]] else []
  }

  lemma {:induction false} PackPrefix<T>(z: seq<T>, size: Vec, offset: Vec, phase: Phase, m: int, n: int)
    requires AtMost(ONES, size) && 0 <= m <= n <= |z|
    ensures Pack(z, size, offset, phase, m) <= Pack(z, size, offset, phase, n)
    decreases n
  {
    if m < n { PackPrefix(z, size, offset, phase, m, n - 1); }
  }

  /** The place of a sent element in the message. */
  lemma PackNext<T>(z: seq<T>, size: Vec, offset: Vec, phase: Phase, n: int)
    requires AtMost(ONES, size) && 0 <= n < |z|
    ensures var sent := Sent(offset, phase, CellOf(size, n));
            var before, all := Pack(z, size, offset, phase, n), Pack(z, size, offset, phase, |z|);
            && |Pack(z, size, offset, phase, n + 1)| == |before| + (if sent then 1 else 0)
            && (sent ==> |before| < |all| && all[|before|] == z[n])
  {
    PackPrefix(z, size, offset, phase, n + 1, |z|);
  }

  /** Only the sent elements matter. */
  lemma {:induction false} PackAgrees<T>(z: seq<T>, y: seq<T>, size: Vec, offset: Vec, phase: Phase, n: int)
    requires AtMost(ONES, size) && 0 <= n <= |z| == |y|
    requires forall m | 0 <= m < n :: Sent(offset, phase, CellOf(size, m)) ==> z[m] == y[m]
    ensures Pack(z, size, offset, phase, n) == Pack(y, size, offset, phase, n)
    decreases n
  {
    if 0 < n { PackAgrees(z, y, size, offset, phase, n - 1); }
  }

  lemma {:induction false} PackLength<T>(z: seq<T>, y: seq<T>, size: Vec, offset: Vec, phase: Phase, n: int)
    requires AtMost(ONES, size) && 0 <= n <= |z| == |y|
    ensures |Pack(z, size, offset, phase, n)| == |Pack(y, size, offset, phase, n)|
    decreases n
  {
    if 0 < n { PackLength(z, y, size, offset, phase, n - 1); }
  }

  /** A message determines the elements that it carries. */
  lemma {:induction false} PackInjective<T>(z: seq<T>, y: seq<T>, size: Vec, offset: Vec, phase: Phase, n: int)
    requires AtMost(ONES, size) && 0 <= n <= |z| == |y|
    requires Pack(z, size, offset, phase, n) == Pack(y, size, offset, phase, n)
    ensures forall m | 0 <= m < n :: Sent(offset, phase, CellOf(size, m)) ==> z[m] == y[m]
    decreases n
  {
    if 0 < n {
      PackLength(z, y, size, offset, phase, n - 1);
      var before := Pack(z, size, offset, phase, n - 1);
      assert before == Pack(z, size, offset, phase, n)[..|before|];
      assert before == Pack(y, size, offset, phase, n - 1);
      PackInjective(z, y, size, offset, phase, n - 1);
      if Sent(offset, phase, CellOf(size, n - 1)) {
        assert Pack(z, size, offset, phase, n)[|before|] == z[n - 1];
      }
    }
  }

  method WriteBox<T>(zeta: array<T>, size: Vec, offset: Vec, phase: Phase) returns (payload: seq<T>)
    requires AtMost(ONES, size) && zeta.Length == size.Product()
    ensures payload == Pack(zeta[..], size, offset, phase, zeta.Length)
  {
    payload := [];
    for i := 0 to size.i
      invariant 0 <= Index(size, Vec(i, 0, 0)) <= zeta.Length
      invariant payload == Pack(zeta[..], size, offset, phase, Index(size, Vec(i, 0, 0)))
    {
      for j := 0 to size.j
        invariant 0 <= Index(size, Vec(i, j, 0)) <= zeta.Length
        invariant payload == Pack(zeta[..], size, offset, phase, Index(size, Vec(i, j, 0)))
      {
        for k := 0 to size.k
          invariant 0 <= Index(size, Vec(i, j, k)) <= zeta.Length
          invariant payload == Pack(zeta[..], size, offset, phase, Index(size, Vec(i, j, k)))
        {
          CellOfIndex(size, Vec(i, j, k));
          if Sent(offset, phase, Vec(i, j, k)) {
            payload := payload + [zeta[Index(size, Vec(i, j, k))]];
          }
        }
        IndexCarry(size, i, j);
      }
      IndexCarry(size, i, 0);
    }
    IndexOrigin(size);
  }

  ghost predicate Restored<T>(zeta: array<T>, size: Vec, offset: Vec, phase: Phase,
                              payload: seq<T>, position: int, n: int)
    requires AtMost(ONES, size)
    reads zeta
  {
    && 0 <= n <= zeta.Length
    && 0 <= position <= |payload|
    && Pack(zeta[..], size, offset, phase, n) == payload[..position]
  }

  method ReadCell<T>(zeta: array<T>, size: Vec, offset: Vec, phase: Phase,
                     payload: seq<T>, position: int, ghost z: seq<T>, c: Vec) returns (next: int)
    requires AtMost(ONES, size) && InBox(c, ORIGIN, size) && |z| == zeta.Length == size.Product()
    requires Restored(zeta, size, offset, phase, payload, position, Index(size, c))
    requires payload == Pack(z, size, offset, phase, |z|)
    modifies zeta
    ensures Restored(zeta, size, offset, phase, payload, next, Index(size, c) + 1)
  {
    ghost var n, was := Index(size, c), zeta[..];
    CellOfIndex(size, c);
    PackNext(z, size, offset, phase, n);
    PackLength(zeta[..], z, size, offset, phase, n);
    next := position;
    if Sent(offset, phase, c) {
      zeta[Index(size, c)] := payload[position];
      next := position + 1;
    }
    PackAgrees(was, zeta[..], size, offset, phase, n);
  }

  /** Reading undoes writing: what is read would be written as the same message. */
  method ReadBox<T>(zeta: array<T>, size: Vec, offset: Vec, phase: Phase, payload: seq<T>, ghost z: seq<T>)
    requires AtMost(ONES, size) && |z| == zeta.Length == size.Product()
    requires payload == Pack(z, size, offset, phase, |z|)
    modifies zeta
    ensures Pack(zeta[..], size, offset, phase, zeta.Length) == payload
  {
    var position := 0;
    IndexOrigin(size);
    for i := 0 to size.i
      invariant Restored(zeta, size, offset, phase, payload, position, Index(size, Vec(i, 0, 0)))
    {
      for j := 0 to size.j
        invariant Restored(zeta, size, offset, phase, payload, position, Index(size, Vec(i, j, 0)))
      {
        for k := 0 to size.k
          invariant Restored(zeta, size, offset, phase, payload, position, Index(size, Vec(i, j, k)))
        {
          position := ReadCell(zeta, size, offset, phase, payload, position, z, Vec(i, j, k));
        }
        IndexCarry(size, i, j);
      }
      IndexCarry(size, i, 0);
    }
    PackLength(zeta[..], z, size, offset, phase, zeta.Length);
  }

  lemma FirstCell(s: Vec)
    requires AtMost(ONES, s)
    ensures 0 < s.Product()
  {
    CellOfIndex(s, ORIGIN);
  }

  /** A part of the grid fits into the domain and its output box is not empty. */
  lemma PartPlaced<T>(p: Problem<T>, g: Vec)
    requires p.Valid() && p.InGrid(g)
    ensures Placed(p, p.PartAt(g).begin, p.PartAt(g).offset, p.PartAt(g).Size())
    ensures AtMost(ONES, p.PartAt(g).Size()) && 0 < p.PartAt(g).Size().Product()
  {
    PartsTileDomain(p, g, ORIGIN);
    FirstCell(p.PartAt(g).Size());
  }

  /** In the output box of its part the noise of a cell is drawn by its place in that box. */
  lemma LocalNoise<T>(p: Problem<T>, g: Vec, c: Vec)
    requires p.Valid() && p.InGrid(g)
    requires InBox(c, p.PartAt(g).offset, p.PartAt(g).Size())
    ensures p.Noise(p.PartAt(g).begin.Plus(c))
            == p.draw(Index(p.PartAt(g).Size().Minus(p.PartAt(g).offset), c.Minus(p.PartAt(g).offset)))
  {
    var part := p.PartAt(g);
    PartsTileDomain(p, g, part.begin.Plus(c));
    assert part.end.Minus(part.Low()) == part.Size().Minus(part.offset);
    assert part.begin.Plus(c).Minus(part.Low()) == c.Minus(part.offset);
  }

  /** The finished surface inside the box of the part at `g`, halo included. */
  ghost function FinalBox<T>(p: Problem<T>, g: Vec): (z: seq<T>)
    requires p.Valid() && p.InGrid(g)
  {
    PartPlaced(p, g);
    var part := p.PartAt(g);
    seq(part.Size().Product(), n requires 0 <= n < part.Size().Product() =>
      IndexCellOf(part.Size(), n);
      p.Final(part.begin.Plus(CellOf(part.Size(), n))))
  }

  /** What travels to the node that computes the part at `g`, or back from it. */
  ghost function Message<T>(p: Problem<T>, g: Vec, phase: Phase): seq<T>
    requires p.Valid() && p.InGrid(g)
  {
    PartPlaced(p, g);
    Pack(FinalBox(p, g), p.PartAt(g).Size(), p.PartAt(g).offset, phase, |FinalBox(p, g)|)
  }

  class Kernel<T(0)> {
    const problem: Problem<T>
    const part: Part
    const zeta: array<T>
    var phase: Phase
    ghost const place: Vec

    ghost predicate Valid()
      ensures Valid() ==> Placed(problem, part.begin, part.offset, part.Size())
                          && AtMost(ONES, part.Size()) && zeta.Length == part.Size().Product()
    {
      && problem.Valid() && problem.InGrid(place)
      && part == problem.PartAt(place).(state := part.state)
      && zeta.Length == part.Size().Product()
      && (PartPlaced(problem, place); true)
    }

    constructor (problem: Problem<T>, part: Part, zeta: array<T>, ghost place: Vec)
      requires problem.Valid() && problem.InGrid(place)
      requires part == problem.PartAt(place).(state := part.state)
      requires zeta.Length == part.Size().Product()
      ensures Valid() && phase == Upstream
      ensures this.problem == problem && this.part == part && this.zeta == zeta && this.place == place
    {
      this.problem, this.part, this.zeta, this.phase, this.place := problem, part, zeta, Upstream, place;
    }

    /** Computes the output box from the halo; what the output box held before is irrelevant. */
    method Act()
      requires Valid()
      requires forall c | InBox(c, ORIGIN, part.Size()) && !AtMost(part.offset, c) ::
                 At(zeta, part.Size(), c) == problem.Final(part.begin.Plus(c))
      modifies this, zeta
      ensures Valid() && phase == Downstream
      ensures forall c | InBox(c, ORIGIN, part.Size()) ::
                At(zeta, part.Size(), c) == problem.Final(part.begin.Plus(c))
    {
      forall c | InBox(c, part.offset, part.Size())
        ensures problem.Noise(part.begin.Plus(c))
                == problem.draw(Index(part.Size().Minus(part.offset), c.Minus(part.offset)))
      {
        LocalNoise(problem, place, c);
      }
      DrawNoise(problem, zeta, part.Size(), part.offset, part.Size());
      Sweep(problem, zeta, part.begin, part.offset, part.Size());
      phase := Downstream;
    }

    method Write() returns (payload: seq<T>)
      requires Valid()
      ensures payload == Pack(zeta[..], part.Size(), part.offset, phase, zeta.Length)
    {
      payload := WriteBox(zeta, part.Size(), part.offset, phase);
    }

    method Read(payload: seq<T>, ghost z: seq<T>)
      requires Valid() && |z| == zeta.Length
      requires payload == Pack(z, part.Size(), part.offset, phase, |z|)
      modifies zeta
      ensures Pack(zeta[..], part.Size(), part.offset, phase, zeta.Length) == payload
    {
      ReadBox(zeta, part.Size(), part.offset, phase, payload, z);
    }
  }

  /** A worker turns the halo of a part into the output box of that part. */
  method Execute<T(0)>(p: Problem<T>, part: Part, task: seq<T>, ghost g: Vec) returns (reply: seq<T>)
    requires p.Valid() && p.InGrid(g) && part == p.PartAt(g).(state := part.state)
    requires task == Message(p, g, Upstream)
    ensures reply == Message(p, g, Downstream)
  {
    PartPlaced(p, g);
    var zeta := new T[part.Size().Product()];
    var k := new Kernel(p, part, zeta, g);
    k.Read(task, FinalBox(p, g));
    PackInjective(zeta[..], FinalBox(p, g), part.Size(), part.offset, Upstream, zeta.Length);
    forall c | InBox(c, ORIGIN, part.Size()) && !AtMost(part.offset, c)
      ensures At(zeta, part.Size(), c) == p.Final(part.begin.Plus(c))
    {
      CellOfIndex(part.Size(), c);
    }
    k.Act();
    reply := k.Write();
    forall n | 0 <= n < zeta.Length ensures zeta[n] == FinalBox(p, g)[n] {
      IndexCellOf(part.Size(), n);
    }
    assert zeta[..] == FinalBox(p, g);
  }
}
