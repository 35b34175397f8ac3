/** The kernel that tiles the surface into parts, submits a part when the parts below it are
    complete, and collects the computed parts in any order. */
module WaveSurface {
  import opened Arithmetic
  import opened Grid
  import opened Recurrence
  import opened PartGenerator

  /** A slice of a flat array: a start, the extents and the strides along the three axes. */
  datatype Slice = Slice(start: int, size: Vec, strides: Vec) {
    function Place(c: Vec): int { start + c.i * strides.i + c.j * strides.j + c.k * strides.k }
  }

  function SliceIn(part: Part, full: Vec): Slice {
    Slice(Index(full, part.begin), part.Size(), Vec(full.j * full.k, full.k, 1))
  }

  function SliceOut(part: Part, full: Vec): Slice {
    Slice(Index(full, part.Low()), part.end.Minus(part.Low()), Vec(full.j * full.k, full.k, 1))
  }

  function LocalSliceOut(part: Part): Slice {
    var n := part.Size();
    Slice(Index(n, part.offset), n.Minus(part.offset), Vec(n.j * n.k, n.k, 1))
  }

  /** A slice with the strides of the box `full` is a box moved to its start. */
  lemma SlicePlace(full: Vec, begin: Vec, size: Vec, c: Vec)
    ensures Slice(Index(full, begin), size, Vec(full.j * full.k, full.k, 1)).Place(c)
            == Index(full, begin.Plus(c))
  {
    assert (begin.i + c.i) * full.j == begin.i * full.j + c.i * full.j;
    assert ((begin.i * full.j + begin.j) + (c.i * full.j + c.j)) * full.k
           == (begin.i * full.j + begin.j) * full.k + (c.i * full.j) * full.k + c.j * full.k;
    assert (c.i * full.j) * full.k == c.i * (full.j * full.k);
  }

  /** The parts of the grid in row-major order; only their states change. */
  ghost predicate GoodParts<T>(p: Problem<T>, parts: seq<Part>)
    requires p.Valid()
  {
    && AtMost(ONES, p.NumParts())
    && |parts| == p.NumParts().Product()
    && forall m | 0 <= m < |parts| :: parts[m] == p.PartAt(CellOf(p.NumParts(), m)).(state := parts[m].state)
  }

  ghost function StateAt<T>(p: Problem<T>, parts: seq<Part>, g: Vec): State
    requires p.Valid() && GoodParts(p, parts) && p.InGrid(g)
  {
    CellOfIndex(p.NumParts(), g);
    parts[Index(p.NumParts(), g)].state
  }

  /** A part that has been submitted has only completed parts below it. */
  ghost predicate WaveClosed<T>(p: Problem<T>, parts: seq<Part>)
    requires p.Valid() && GoodParts(p, parts)
  {
    forall g, h | p.InGrid(g) && p.InGrid(h) && AtMost(h, g) && h != g ::
      StateAt(p, parts, g) != Initial ==> StateAt(p, parts, h) == Completed
  }

  /** The cells of completed parts are final. */
  ghost predicate SurfaceSoFar<T>(p: Problem<T>, parts: seq<Part>, zeta: array<T>)
    requires p.Valid() && GoodParts(p, parts) && zeta.Length == p.full.Product()
    reads zeta
  {
    forall c {:trigger At(zeta, p.full, c)} | InBox(c, ORIGIN, p.full) && p.InGrid(p.Owner(c)) ::
      StateAt(p, parts, p.Owner(c)) == Completed ==> At(zeta, p.full, c) == p.Final(c)
  }

  /** The neighbours of `g` below it, diagonal ones included, are complete. */
  ghost predicate Ready<T>(p: Problem<T>, parts: seq<Part>, g: Vec)
    requires p.Valid() && GoodParts(p, parts) && p.InGrid(g)
  {
    forall h | p.InGrid(h) && AtMost(g.Minus(ONES), h) && AtMost(h, g) && h != g ::
      StateAt(p, parts, h) == Completed
  }

  lemma ReadyMeansAllBelow<T>(p: Problem<T>, parts: seq<Part>, g: Vec, h: Vec)
    requires p.Valid() && GoodParts(p, parts) && WaveClosed(p, parts)
    requires p.InGrid(g) && Ready(p, parts, g) && p.InGrid(h) && AtMost(h, g) && h != g
    ensures StateAt(p, parts, h) == Completed
  {
    var near := Vec(if h.i < g.i then g.i - 1 else g.i,
                    if h.j < g.j then g.j - 1 else g.j,
                    if h.k < g.k then g.k - 1 else g.k);
    assert StateAt(p, parts, near) == Completed;
  }

  /** What one pass over the parts does to the part number `m`. */
  ghost function Pushed<T>(p: Problem<T>, parts: seq<Part>, m: int): Part
    requires p.Valid() && GoodParts(p, parts) && 0 <= m < |parts|
  {
    IndexCellOf(p.NumParts(), m);
    if parts[m].state == Initial && Ready(p, parts, CellOf(p.NumParts(), m))
    then parts[m].(state := Submitted) else parts[m]
  }

  ghost predicate PushedUpTo<T>(p: Problem<T>, was: seq<Part>, parts: seq<Part>, n: int)
    requires p.Valid() && GoodParts(p, was)
  {
    && |parts| == |was|
    && forall m | 0 <= m < |was| :: parts[m] == if m < n then Pushed(p, was, m) else was[m]
  }

  /** A part that was not ready keeps its state. */
  lemma PushedStates<T>(p: Problem<T>, was: seq<Part>, parts: seq<Part>, n: int, g: Vec)
    requires p.Valid() && GoodParts(p, was) && PushedUpTo(p, was, parts, n) && GoodParts(p, parts) && p.InGrid(g)
    ensures StateAt(p, parts, g) == Completed <==> StateAt(p, was, g) == Completed
    ensures StateAt(p, parts, g) != Initial ==> StateAt(p, was, g) != Initial || Ready(p, was, g)
  {
    hide Ready;
    CellOfIndex(p.NumParts(), g);
  }

  lemma PushedAreGood<T>(p: Problem<T>, was: seq<Part>, parts: seq<Part>, n: int)
    requires p.Valid() && GoodParts(p, was) && PushedUpTo(p, was, parts, n)
    ensures GoodParts(p, parts)
  {
    hide Ready;
  }

  /** A pass keeps the wavefront closed. */
  lemma PushKeepsWave<T>(p: Problem<T>, was: seq<Part>, parts: seq<Part>, n: int)
    requires p.Valid() && GoodParts(p, was) && WaveClosed(p, was) && PushedUpTo(p, was, parts, n)
    ensures GoodParts(p, parts) && WaveClosed(p, parts)
    ensures forall g | p.InGrid(g) ::
              StateAt(p, parts, g) == Completed <==> StateAt(p, was, g) == Completed
  {
    PushedAreGood(p, was, parts, n);
    forall g | p.InGrid(g) ensures
      && (StateAt(p, parts, g) == Completed <==> StateAt(p, was, g) == Completed)
      && (StateAt(p, parts, g) != Initial ==> StateAt(p, was, g) != Initial || Ready(p, was, g))
    {
      PushedStates(p, was, parts, n, g);
    }
    hide PushedUpTo, StateAt, Ready, GoodParts;
    forall g, h | p.InGrid(g) && p.InGrid(h) && AtMost(h, g) && h != g && StateAt(p, parts, g) != Initial
      ensures StateAt(p, parts, h) == Completed
    {
      if StateAt(p, was, g) == Initial { ReadyMeansAllBelow(p, was, g, h); }
    }
  }

  lemma LowerIndex(s: Vec, h: Vec, g: Vec)
    requires InBox(g, ORIGIN, s) && InBox(h, ORIGIN, s) && AtMost(h, g) && h != g
    ensures Index(s, h) < Index(s, g)
  {
    MulMono(h.i, g.i, s.j);
    MulMono(h.i * s.j + h.j, g.i * s.j + g.j, s.k);
    if h.i < g.i { MulLess(h.i, g.i, s.j); }
    if h.i * s.j + h.j < g.i * s.j + g.j {
      MulMono(0, h.i, s.j);
      MulLess(h.i * s.j + h.j, g.i * s.j + g.j, s.k);
    }
  }

  /** The wavefront never stalls: while a part is incomplete, a pass leaves some part submitted. */
  lemma NeverStalls<T>(p: Problem<T>, was: seq<Part>, parts: seq<Part>) returns (m: int)
    requires p.Valid() && GoodParts(p, was) && PushedUpTo(p, was, parts, |was|)
    requires exists n | 0 <= n < |parts| :: parts[n].state != Completed
    ensures 0 <= m < |parts| && parts[m].state == Submitted
  {
    m := 0;
    while parts[m].state == Completed
      invariant 0 <= m < |parts|
      invariant forall n | 0 <= n < m :: parts[n].state == Completed
      decreases |parts| - m
    {
      m := m + 1;
    }
    var g := CellOf(p.NumParts(), m);
    IndexCellOf(p.NumParts(), m);
    forall h | p.InGrid(h) && AtMost(h, g) && h != g ensures StateAt(p, was, h) == Completed {
      LowerIndex(p.NumParts(), h, g);
      CellOfIndex(p.NumParts(), h);
      assert parts[Index(p.NumParts(), h)].state == Completed;
    }
  }

  datatype Task<T> = Task(part: Part, payload: seq<T>)

  /** Each part that is not initial has been sent out once, with a final halo. */
  ghost predicate GoodLog<T>(p: Problem<T>, parts: seq<Part>, sent: seq<Task<T>>)
    requires p.Valid() && GoodParts(p, parts)
  {
    && (forall a | 0 <= a < |sent| :: GoodTask(p, parts, sent[a]))
    && (forall a, b | 0 <= a < b < |sent| :: sent[a].part.index != sent[b].part.index)
    && (forall m | 0 <= m < |parts| && parts[m].state != Initial ::
          exists a | 0 <= a < |sent| :: sent[a].part.index == m)
  }

  ghost predicate GoodTask<T>(p: Problem<T>, parts: seq<Part>, task: Task<T>)
    requires p.Valid() && GoodParts(p, parts)
  {
    var m := task.part.index;
    && 0 <= m < |parts| && parts[m].state != Initial
    && p.InGrid(CellOf(p.NumParts(), m))
    && task.part == p.PartAt(CellOf(p.NumParts(), m)).(state := Submitted)
    && task.payload == Message(p, CellOf(p.NumParts(), m), Upstream)
  }

  /** The counters of the loops over the neighbours `g - e` when the loops have reached `at`. */
  ghost predicate Counted<T>(p: Problem<T>, parts: seq<Part>, g: Vec, limit: Vec, at: Vec,
                             completed: int, dependencies: int)
    requires p.Valid() && GoodParts(p, parts) && p.InGrid(g)
    requires AtMost(limit, Vec(2, 2, 2)) && AtMost(limit, g.Plus(ONES))
  {
    if at == ORIGIN then completed == dependencies == 0
    else
      && completed <= dependencies - 1
      && (completed == dependencies - 1 <==>
          forall e | InBox(e, ORIGIN, limit) && Before(e, at) && e != ORIGIN ::
            StateAt(p, parts, g.Minus(e)) == Completed)
  }

  lemma CountOne<T>(p: Problem<T>, parts: seq<Part>, g: Vec, limit: Vec, at: Vec, next: Vec,
                    completed: int, dependencies: int, more: int)
    requires p.Valid() && GoodParts(p, parts) && p.InGrid(g)
    requires AtMost(limit, Vec(2, 2, 2)) && AtMost(limit, g.Plus(ONES)) && InBox(at, ORIGIN, limit)
    requires Counted(p, parts, g, limit, at, completed, dependencies) && next == Vec(at.i, at.j, at.k + 1)
    requires more == completed + if StateAt(p, parts, g.Minus(at)) == Completed then 1 else 0
    requires StateAt(p, parts, g) != Completed
    ensures Counted(p, parts, g, limit, next, more, dependencies + 1)
  {
    hide StateAt, GoodParts;
    assert g.Minus(ORIGIN) == g;
  }

  /** At the end of a row, or of a plane, the next one begins. */
  lemma CountOn<T>(p: Problem<T>, parts: seq<Part>, g: Vec, limit: Vec, at: Vec, next: Vec,
                   completed: int, dependencies: int)
    requires p.Valid() && GoodParts(p, parts) && p.InGrid(g) && AtMost(ONES, limit)
    requires AtMost(limit, Vec(2, 2, 2)) && AtMost(limit, g.Plus(ONES)) && AtMost(ORIGIN, at)
    requires (at.k == limit.k && next == Vec(at.i, at.j + 1, 0))
             || (at.j == limit.j && at.k == 0 && next == Vec(at.i + 1, 0, 0))
    requires Counted(p, parts, g, limit, at, completed, dependencies)
    ensures Counted(p, parts, g, limit, next, completed, dependencies)
  {
    hide StateAt, GoodParts;
  }

  method IsReady<T>(p: Problem<T>, parts: seq<Part>, g: Vec) returns (ready: bool)
    requires p.Valid() && GoodParts(p, parts) && p.InGrid(g) && StateAt(p, parts, g) != Completed
    ensures ready <==> Ready(p, parts, g)
  {
    hide Index, CellOf, GoodParts, StateAt, Ready;
    var num := p.NumParts();
    var completed, dependencies := 0, 0;
    var limit := MinVec(g.Plus(ONES), Vec(2, 2, 2));
    assert Counted(p, parts, g, limit, ORIGIN, 0, 0);
    hide Counted;
    var l := 0;
    while l < limit.i
      invariant 0 <= l <= limit.i && Counted(p, parts, g, limit, Vec(l, 0, 0), completed, dependencies)
    {
      var m := 0;
      while m < limit.j
        invariant 0 <= m <= limit.j && Counted(p, parts, g, limit, Vec(l, m, 0), completed, dependencies)
      {
        var n := 0;
        while n < limit.k
          invariant 0 <= n <= limit.k && Counted(p, parts, g, limit, Vec(l, m, n), completed, dependencies)
        {
          var h, next, more := g.Minus(Vec(l, m, n)), n + 1, completed;
          StateIs(p, parts, h);
          if parts[Index(num, h)].state == Completed {
            more := completed + 1;
          }
          CountOne(p, parts, g, limit, Vec(l, m, n), Vec(l, m, next), completed, dependencies, more);
          n, completed, dependencies := next, more, dependencies + 1;
        }
        var below := m + 1;
        CountOn(p, parts, g, limit, Vec(l, m, n), Vec(l, below, 0), completed, dependencies);
        m := below;
      }
      var behind := l + 1;
      CountOn(p, parts, g, limit, Vec(l, m, 0), Vec(behind, 0, 0), completed, dependencies);
      l := behind;
    }
    ready := completed == dependencies - 1;
    AllCounted(p, parts, g, limit, completed, dependencies);
  }

  lemma StateIs<T>(p: Problem<T>, parts: seq<Part>, g: Vec)
    requires p.Valid() && GoodParts(p, parts) && p.InGrid(g)
    ensures 0 <= Index(p.NumParts(), g) < |parts| && StateAt(p, parts, g) == parts[Index(p.NumParts(), g)].state
  {
    CellOfIndex(p.NumParts(), g);
  }

  lemma AllCounted<T>(p: Problem<T>, parts: seq<Part>, g: Vec, limit: Vec, completed: int, dependencies: int)
    requires p.Valid() && GoodParts(p, parts) && p.InGrid(g) && limit == MinVec(g.Plus(ONES), Vec(2, 2, 2))
    requires Counted(p, parts, g, limit, Vec(limit.i, 0, 0), completed, dependencies)
    ensures completed == dependencies - 1 <==> Ready(p, parts, g)
  {
    hide StateAt, GoodParts;
    if completed == dependencies - 1 {
      forall h | p.InGrid(h) && AtMost(g.Minus(ONES), h) && AtMost(h, g) && h != g
        ensures StateAt(p, parts, h) == Completed
      {
        assert h == g.Minus(g.Minus(h));
      }
    }
  }

  lemma SameIndex(s: Vec, c: Vec)
    requires InBox(c, ORIGIN, s)
    ensures forall d | InBox(d, ORIGIN, s) :: 0 <= Index(s, d) < s.Product() && (Index(s, d) == Index(s, c) <==> d == c)
  {
    CellOfIndex(s, c);
    forall d | InBox(d, ORIGIN, s)
      ensures 0 <= Index(s, d) < s.Product() && (Index(s, d) == Index(s, c) <==> d == c)
    {
      CellOfIndex(s, d);
    }
  }

  method PutAt<T>(a: array<T>, s: Vec, place: int, ghost c: Vec, value: T)
    requires a.Length == s.Product() && InBox(c, ORIGIN, s) && place == Index(s, c)
    modifies a
    ensures forall d | InBox(d, ORIGIN, s) :: At(a, s, d) == if d == c then value else old(At(a, s, d))
  {
    SameIndex(s, c);
    a[place] := value;
  }

  /** `box = zeta[slice]` for the slice of the given size at `begin`. */
  method Gather<T>(zeta: array<T>, full: Vec, slice: Slice, ghost begin: Vec, box: array<T>)
    requires zeta.Length == full.Product() && AtMost(ORIGIN, begin) && AtMost(begin.Plus(slice.size), full)
    requires slice == Slice(Index(full, begin), slice.size, Vec(full.j * full.k, full.k, 1))
    requires AtMost(ONES, slice.size) && box.Length == slice.size.Product() && box != zeta
    modifies box
    ensures forall c | InBox(c, ORIGIN, slice.size) :: At(box, slice.size, c) == At(zeta, full, begin.Plus(c))
  {
    hide Index, CellOf;
    SameIndex(slice.size, ORIGIN);
    for n := 0 to box.Length
      invariant forall c | InBox(c, ORIGIN, slice.size) && Index(slice.size, c) < n ::
                  At(box, slice.size, c) == At(zeta, full, begin.Plus(c))
    {
      var c := CellOf(slice.size, n);
      IndexCellOf(slice.size, n);
      SlicePlace(full, begin, slice.size, c);
      CellOfIndex(full, begin.Plus(c));
      SameIndex(slice.size, c);
      PutAt(box, slice.size, n, c, zeta[slice.Place(c)]);
    }
    SameIndex(slice.size, ORIGIN);
  }

  /** `zeta[out] = box[from]` for slices of the same size at `low` and at `offset`. */
  method Scatter<T>(zeta: array<T>, full: Vec, out: Slice, ghost low: Vec,
                    box: array<T>, boxSize: Vec, from: Slice, ghost offset: Vec)
    requires zeta.Length == full.Product() && AtMost(ORIGIN, low) && AtMost(low.Plus(out.size), full)
    requires box.Length == boxSize.Product() && AtMost(ORIGIN, offset) && AtMost(offset.Plus(from.size), boxSize)
    requires out == Slice(Index(full, low), out.size, Vec(full.j * full.k, full.k, 1))
    requires from == Slice(Index(boxSize, offset), out.size, Vec(boxSize.j * boxSize.k, boxSize.k, 1))
    requires AtMost(ONES, out.size) && box != zeta
    modifies zeta
    ensures forall d | InBox(d, ORIGIN, full) ::
              At(zeta, full, d) == if InBox(d, low, low.Plus(out.size))
                                   then At(box, boxSize, offset.Plus(d.Minus(low))) else old(At(zeta, full, d))
  {
    FirstCell(out.size);
    SameIndex(out.size, ORIGIN);
    for n := 0 to out.size.Product()
      invariant forall d | InBox(d, ORIGIN, full) ::
                  At(zeta, full, d) == if InBox(d, low, low.Plus(out.size)) && Index(out.size, d.Minus(low)) < n
                                       then At(box, boxSize, offset.Plus(d.Minus(low))) else old(At(zeta, full, d))
    {
      var c := CellOf(out.size, n);
      IndexCellOf(out.size, n);
      SlicePlace(full, low, out.size, c);
      SlicePlace(boxSize, offset, out.size, c);
      CellOfIndex(boxSize, offset.Plus(c));
      CellOfIndex(full, low.Plus(c));
      SameIndex(out.size, c);
      PutAt(zeta, full, out.Place(c), low.Plus(c), box[from.Place(c)]);
      assert forall d | InBox(d, low, low.Plus(out.size)) :: InBox(d.Minus(low), ORIGIN, out.size);
    }
  }

  /** When a part is submitted, every cell of its halo is final. */
  lemma HaloIsFinal<T>(p: Problem<T>, parts: seq<Part>, zeta: array<T>, g: Vec, c: Vec)
    requires p.Valid() && GoodParts(p, parts) && WaveClosed(p, parts)
    requires zeta.Length == p.full.Product() && SurfaceSoFar(p, parts, zeta)
    requires p.InGrid(g) && Ready(p, parts, g)
    requires InBox(c, p.PartAt(g).begin, p.PartAt(g).end) && !AtMost(p.PartAt(g).Low(), c)
    ensures InBox(c, ORIGIN, p.full) && At(zeta, p.full, c) == p.Final(c)
  {
    HaloInLowerParts(p, g, c);
    ReadyMeansAllBelow(p, parts, g, p.Owner(c));
  }

  lemma FinalBoxAt<T>(p: Problem<T>, g: Vec, c: Vec)
    requires p.Valid() && p.InGrid(g) && InBox(c, ORIGIN, p.PartAt(g).Size())
    ensures |FinalBox(p, g)| == p.PartAt(g).Size().Product()
    ensures 0 <= Index(p.PartAt(g).Size(), c) < |FinalBox(p, g)|
    ensures InBox(p.PartAt(g).begin.Plus(c), ORIGIN, p.full)
    ensures FinalBox(p, g)[Index(p.PartAt(g).Size(), c)] == p.Final(p.PartAt(g).begin.Plus(c))
  {
    PartPlaced(p, g);
    CellOfIndex(p.PartAt(g).Size(), c);
  }

  /** Copies the box of a part out of the surface and encodes the kernel that computes it. */
  method Submit<T(0)>(p: Problem<T>, zeta: array<T>, part: Part, ghost g: Vec) returns (task: Task<T>)
    requires p.Valid() && zeta.Length == p.full.Product()
    requires p.InGrid(g) && part == p.PartAt(g).(state := Submitted)
    requires forall c | InBox(c, part.begin, part.end) && !AtMost(part.Low(), c) ::
               InBox(c, ORIGIN, p.full) && At(zeta, p.full, c) == p.Final(c)
    ensures task == Task(part, Message(p, g, Upstream))
  {
    PartPlaced(p, g);
    var size := part.Size();
    var box := new T[size.Product()];
    Gather(zeta, p.full, SliceIn(part, p.full), part.begin, box);
    forall n | 0 <= n < box.Length && Sent(part.offset, Upstream, CellOf(size, n))
      ensures box[n] == FinalBox(p, g)[n]
    {
      var c := CellOf(size, n);
      IndexCellOf(size, n);
      FinalBoxAt(p, g, c);
      assert At(box, size, c) == p.Final(part.begin.Plus(c));
    }
    var k := new Kernel(p, part, box, g);
    var payload := k.Write();
    PackAgrees(box[..], FinalBox(p, g), size, part.offset, Upstream, box.Length);
    task := Task(part, payload);
  }

  /** Copies the output box of a returned part into the surface. */
  method Accept<T(0)>(p: Problem<T>, zeta: array<T>, part: Part, reply: seq<T>, ghost g: Vec)
    requires p.Valid() && zeta.Length == p.full.Product()
    requires p.InGrid(g) && part == p.PartAt(g).(state := part.state)
    requires reply == Message(p, g, Downstream)
    modifies zeta
    ensures forall c | InBox(c, ORIGIN, p.full) ::
              At(zeta, p.full, c) == if p.Owner(c) == g then p.Final(c) else old(At(zeta, p.full, c))
  {
    PartPlaced(p, g);
    PartsTileDomain(p, g, ORIGIN);
    var size := part.Size();
    var box := new T[size.Product()];
    var k := new Kernel(p, part, box, g);
    k.phase := Downstream;
    k.Read(reply, FinalBox(p, g));
    PackInjective(box[..], FinalBox(p, g), size, part.offset, Downstream, box.Length);
    Scatter(zeta, p.full, SliceOut(part, p.full), part.Low(), box, size, LocalSliceOut(part), part.offset);
    forall c | InBox(c, ORIGIN, p.full)
      ensures At(zeta, p.full, c) == if p.Owner(c) == g then p.Final(c) else old(At(zeta, p.full, c))
    {
      PartsTileDomain(p, g, c);
      if InBox(c, part.Low(), part.end) {
        var local := c.Minus(part.begin);
        SamePlace(part, c);
        FinalBoxAt(p, g, local);
        CellOfIndex(size, local);
      }
    }
  }

  lemma SamePlace(part: Part, c: Vec)
    ensures part.offset.Plus(c.Minus(part.Low())) == c.Minus(part.begin) && part.begin.Plus(c.Minus(part.begin)) == c
  {
  }

  /** The parts in the order in which they are generated. */
  method GenerateParts<T>(p: Problem<T>) returns (parts: seq<Part>)
    requires p.Valid()
    ensures GoodParts(p, parts) && forall m | 0 <= m < |parts| :: parts[m].state == Initial
  {
    var num := p.NumParts();
    PartsExist(p);
    parts := [];
    IndexOrigin(num);
    for i := 0 to num.i
      invariant |parts| == Index(num, Vec(i, 0, 0)) && Generated(p, parts)
    {
      for j := 0 to num.j
        invariant |parts| == Index(num, Vec(i, j, 0)) && Generated(p, parts)
      {
        for k := 0 to num.k
          invariant |parts| == Index(num, Vec(i, j, k)) && Generated(p, parts)
        {
          CellOfIndex(num, Vec(i, j, k));
          parts := parts + [p.PartAt(Vec(i, j, k))];
        }
        IndexCarry(num, i, j);
      }
      IndexCarry(num, i, 0);
    }
  }

  ghost predicate Generated<T>(p: Problem<T>, parts: seq<Part>)
    requires p.Valid()
  {
    && AtMost(ONES, p.NumParts())
    && forall m | 0 <= m < |parts| :: parts[m] == p.PartAt(CellOf(p.NumParts(), m))
  }

  lemma OneSubmitted<T>(p: Problem<T>, parts: seq<Part>, now: seq<Part>, g: Vec)
    requires p.Valid() && GoodParts(p, parts) && p.InGrid(g) && 0 <= Index(p.NumParts(), g) < |parts|
    requires now == parts[Index(p.NumParts(), g) := parts[Index(p.NumParts(), g)].(state := Submitted)]
    ensures GoodParts(p, now)
    ensures forall h | p.InGrid(h) :: StateAt(p, now, h) == if h == g then Submitted else StateAt(p, parts, h)
  {
    forall h | p.InGrid(h) ensures StateAt(p, now, h) == if h == g then Submitted else StateAt(p, parts, h) {
      SameIndex(p.NumParts(), g);
    }
  }

  /** Submitting a ready part keeps the wavefront closed. */
  lemma SubmitKeepsWave<T>(p: Problem<T>, parts: seq<Part>, now: seq<Part>, g: Vec)
    requires p.Valid() && GoodParts(p, parts) && WaveClosed(p, parts) && p.InGrid(g)
    requires StateAt(p, parts, g) == Initial && Ready(p, parts, g)
    requires 0 <= Index(p.NumParts(), g) < |parts|
    requires now == parts[Index(p.NumParts(), g) := parts[Index(p.NumParts(), g)].(state := Submitted)]
    ensures GoodParts(p, now) && WaveClosed(p, now)
  {
    OneSubmitted(p, parts, now, g);
    hide GoodParts, StateAt, Index;
    forall f, h | p.InGrid(f) && p.InGrid(h) && AtMost(h, f) && h != f && StateAt(p, now, f) != Initial
      ensures StateAt(p, now, h) == Completed
    {
      if f == g { ReadyMeansAllBelow(p, parts, g, h); }
    }
  }

  /** Sending a task for an initial part keeps the log good. */
  lemma TaskStaysGood<T>(p: Problem<T>, parts: seq<Part>, now: seq<Part>, task: Task<T>, m: int)
    requires p.Valid() && GoodParts(p, parts) && GoodParts(p, now) && GoodTask(p, parts, task)
    requires 0 <= m < |parts| && now == parts[m := parts[m].(state := Submitted)]
    ensures GoodTask(p, now, task)
  {
  }

  lemma RecordKeepsLog<T>(p: Problem<T>, parts: seq<Part>, now: seq<Part>, sent: seq<Task<T>>, task: Task<T>, m: int)
    requires p.Valid() && GoodParts(p, parts) && GoodLog(p, parts, sent)
    requires 0 <= m < |parts| && parts[m].state == Initial && now == parts[m := parts[m].(state := Submitted)]
    requires GoodParts(p, now) && GoodTask(p, now, task) && task.part.index == m
    ensures GoodLog(p, now, sent + [task])
  {
    var log := sent + [task];
    forall a | 0 <= a < |sent| ensures GoodTask(p, now, sent[a]) { TaskStaysGood(p, parts, now, sent[a], m); }
    hide GoodTask, GoodParts;
    forall n | 0 <= n < |now| && now[n].state != Initial
      ensures exists a | 0 <= a < |log| :: log[a].part.index == n
    {
      if n == m {
        assert log[|sent|].part.index == n;
      } else {
        var a :| 0 <= a < |sent| && sent[a].part.index == n;
        assert log[a].part.index == n;
      }
    }
  }

  lemma RecordKeepsSurface<T>(p: Problem<T>, parts: seq<Part>, now: seq<Part>, zeta: array<T>, m: int)
    requires p.Valid() && GoodParts(p, parts) && GoodParts(p, now) && zeta.Length == p.full.Product()
    requires 0 <= m < |parts| && parts[m].state == Initial && now == parts[m := parts[m].(state := Submitted)]
    requires SurfaceSoFar(p, parts, zeta)
    ensures SurfaceSoFar(p, now, zeta)
  {
    forall c | InBox(c, ORIGIN, p.full) && p.InGrid(p.Owner(c)) && StateAt(p, now, p.Owner(c)) == Completed
      ensures At(zeta, p.full, c) == p.Final(c)
    {
      CellOfIndex(p.NumParts(), p.Owner(c));
    }
  }

  /** A pass decides about the next part from the states as they are now. */
  lemma PushedNow<T>(p: Problem<T>, was: seq<Part>, parts: seq<Part>, g: Vec)
    requires p.Valid() && GoodParts(p, was) && WaveClosed(p, was) && GoodParts(p, parts) && p.InGrid(g)
    requires PushedUpTo(p, was, parts, Index(p.NumParts(), g))
    ensures 0 <= Index(p.NumParts(), g) < |parts|
    ensures var m := Index(p.NumParts(), g);
            CellOf(p.NumParts(), m) == g && parts[m] == was[m] && parts[m].index == m
            && parts[m] == p.PartAt(g).(state := parts[m].state) && StateAt(p, parts, g) == parts[m].state
            && Pushed(p, was, m) == if parts[m].state == Initial && Ready(p, parts, g)
                                    then parts[m].(state := Submitted) else parts[m]
  {
    CellOfIndex(p.NumParts(), g);
    PushKeepsWave(p, was, parts, Index(p.NumParts(), g));
  }

  lemma PartsExist<T>(p: Problem<T>)
    requires p.Valid()
    ensures AtMost(ONES, p.NumParts())
  {
    OwnerInGrid(p, ORIGIN);
  }

  class Generator<T(0)> {
    const problem: Problem<T>
    var parts: seq<Part>
    const zeta: array<T>
    /** Everything that has been sent upstream so far. */
    var sent: seq<Task<T>>

    ghost predicate Valid()
      reads this, zeta
    {
      && problem.Valid()
      && GoodParts(problem, parts)
      && WaveClosed(problem, parts)
      && zeta.Length == problem.full.Product()
      && SurfaceSoFar(problem, parts, zeta)
      && GoodLog(problem, parts, sent)
    }

    ghost predicate Done()
      reads this
    {
      forall m | 0 <= m < |parts| :: parts[m].state == Completed
    }

    constructor (problem: Problem<T>)
      requires problem.Valid()
      ensures this.problem == problem && Valid() && fresh(zeta) && sent == []
      ensures forall m | 0 <= m < |parts| :: parts[m].state == Initial
    {
      this.problem := problem;
      this.parts := [];
      FirstCell(problem.full);
      this.zeta := new T[problem.full.Product()];
      this.sent := [];
      new;
      parts := GenerateParts(problem);
      forall g | problem.InGrid(g) ensures StateAt(problem, parts, g) == Initial {
        CellOfIndex(problem.NumParts(), g);
      }
    }

    /** One pass over the parts: submits every initial part whose lower neighbours are complete,
        and reports whether all the parts are complete. */
    method PushKernels() returns (done: bool)
      requires Valid()
      modifies this`parts, this`sent
      ensures Valid() && PushedUpTo(problem, old(parts), parts, |parts|)
      ensures done <==> Done()
    {
      hide Index, CellOf, Vec.Product, Problem.PartAt, Problem.Owner, Problem.Noise, Message;
      hide WaveClosed, SurfaceSoFar, GoodLog, Ready, StateAt;
      ghost var was, n := parts, 0;
      var num := problem.NumParts();
      var finished := 0;
      IndexOrigin(num);
      for i := 0 to num.i
        invariant n == Index(num, Vec(i, 0, 0)) && Pass(was, finished, n)
      {
        for j := 0 to num.j
          invariant n == Index(num, Vec(i, j, 0)) && Pass(was, finished, n)
        {
          for k := 0 to num.k
            invariant n == Index(num, Vec(i, j, k)) && Pass(was, finished, n)
          {
            finished := Visit(Vec(i, j, k), finished, was);
            n := n + 1;
            IndexNext(num, i, j, k);
          }
          IndexCarry(num, i, j);
        }
        IndexCarry(num, i, 0);
      }
      done := finished == |parts|;
    }

    /** The state of a pass that has seen the first `n` parts. */
    ghost predicate Pass(was: seq<Part>, finished: int, n: int)
      reads this, zeta
    {
      && Valid()
      && GoodParts(problem, was)
      && WaveClosed(problem, was)
      && 0 <= n <= |parts|
      && PushedUpTo(problem, was, parts, n)
      && finished <= n
      && (finished == n <==> forall m | 0 <= m < n :: parts[m].state == Completed)
    }

    method Visit(g: Vec, finished: int, ghost was: seq<Part>) returns (count: int)
      requires problem.Valid() && problem.InGrid(g) && Pass(was, finished, Index(problem.NumParts(), g))
      modifies this`parts, this`sent
      ensures Pass(was, count, Index(problem.NumParts(), g) + 1)
    {
      hide Index, CellOf, Vec.Product, Problem.PartAt, Problem.Owner, Problem.Noise, Message;
      hide WaveClosed, SurfaceSoFar, GoodLog, Ready, StateAt, Pushed;
      var m := Index(problem.NumParts(), g);
      PushedNow(problem, was, parts, g);
      count := finished;
      if parts[m].state == Completed {
        count := count + 1;
      } else if parts[m].state == Initial {
        var ready := IsReady(problem, parts, g);
        if ready {
          forall c | InBox(c, parts[m].begin, parts[m].end) && !AtMost(parts[m].Low(), c)
            ensures InBox(c, ORIGIN, problem.full) && At(zeta, problem.full, c) == problem.Final(c)
          {
            HaloIsFinal(problem, parts, zeta, g, c);
          }
          var task := Submit(problem, zeta, parts[m].(state := Submitted), g);
          Record(g, task);
        }
      }
    }

    method Record(g: Vec, task: Task<T>)
      requires Valid() && problem.InGrid(g) && 0 <= Index(problem.NumParts(), g) < |parts|
      requires StateAt(problem, parts, g) == Initial && Ready(problem, parts, g)
      requires task == Task(problem.PartAt(g).(state := Submitted), Message(problem, g, Upstream))
      modifies this`parts, this`sent
      ensures Valid()
      ensures parts == old(parts)[Index(problem.NumParts(), g) := task.part] && sent == old(sent) + [task]
    {
      var m := Index(problem.NumParts(), g);
      CellOfIndex(problem.NumParts(), g);
      ghost var now := parts[m := parts[m].(state := Submitted)];
      SubmitKeepsWave(problem, parts, now, g);
      RecordKeepsLog(problem, parts, now, sent, task, m);
      RecordKeepsSurface(problem, parts, now, zeta, m);
      parts := parts[m := parts[m].(state := Submitted)];
      sent := sent + [task];
    }

    /** A computed part has come back, possibly not for the first time. */
    method React(part: Part, reply: seq<T>, ghost g: Vec) returns (done: bool)
      requires Valid() && problem.InGrid(g) && part == problem.PartAt(g).(state := part.state)
      requires StateAt(problem, parts, g) != Initial && reply == Message(problem, g, Downstream)
      modifies this`parts, this`sent, zeta
      ensures Valid() && 0 <= part.index < |parts| == |old(parts)| && part.index == Index(problem.NumParts(), g)
      ensures GoodParts(problem, Completing(old(parts), part.index))
      ensures PushedUpTo(problem, Completing(old(parts), part.index), parts, |parts|)
      ensures done <==> Done()
    {
      CellOfIndex(problem.NumParts(), g);
      CompleteKeepsWave(problem, parts, g);
      CompleteKeepsLog(problem, parts, Completing(parts, part.index), sent, part.index);
      Accept(problem, zeta, part, reply, g);
      CompleteKeepsSurface(problem, parts, zeta, g);
      parts := parts[part.index := parts[part.index].(state := Completed)];
      done := PushKernels();
    }
  }

  function Completing(parts: seq<Part>, m: int): seq<Part>
    requires 0 <= m < |parts|
  {
    parts[m := parts[m].(state := Completed)]
  }

  lemma CompleteKeepsWave<T>(p: Problem<T>, parts: seq<Part>, g: Vec)
    requires p.Valid() && GoodParts(p, parts) && WaveClosed(p, parts) && p.InGrid(g)
    requires StateAt(p, parts, g) != Initial && 0 <= Index(p.NumParts(), g) < |parts|
    ensures var now := Completing(parts, Index(p.NumParts(), g)); GoodParts(p, now) && WaveClosed(p, now)
  {
    var now := Completing(parts, Index(p.NumParts(), g));
    forall h | p.InGrid(h)
      ensures StateAt(p, now, h) == if h == g then Completed else StateAt(p, parts, h)
    {
      SameIndex(p.NumParts(), g);
    }
  }

  lemma CompleteKeepsLog<T>(p: Problem<T>, parts: seq<Part>, now: seq<Part>, sent: seq<Task<T>>, m: int)
    requires p.Valid() && GoodParts(p, parts) && GoodParts(p, now) && GoodLog(p, parts, sent)
    requires 0 <= m < |parts| && parts[m].state != Initial && now == Completing(parts, m)
    ensures GoodLog(p, now, sent)
  {
    forall a | 0 <= a < |sent| ensures GoodTask(p, now, sent[a]) {
      assert GoodTask(p, parts, sent[a]);
    }
  }

  /** The cells outside `g` are as they were and those of `g` are final. */
  lemma CompleteKeepsSurface<T>(p: Problem<T>, parts: seq<Part>, zeta: array<T>, g: Vec)
    requires p.Valid() && GoodParts(p, parts) && p.InGrid(g) && zeta.Length == p.full.Product()
    requires 0 <= Index(p.NumParts(), g) < |parts|
    requires GoodParts(p, Completing(parts, Index(p.NumParts(), g)))
    requires forall c | InBox(c, ORIGIN, p.full) && p.Owner(c) == g :: At(zeta, p.full, c) == p.Final(c)
    requires SurfaceSoFar(p, parts, zeta)
    ensures SurfaceSoFar(p, Completing(parts, Index(p.NumParts(), g)), zeta)
  {
    var now := Completing(parts, Index(p.NumParts(), g));
    forall c | InBox(c, ORIGIN, p.full) && p.InGrid(p.Owner(c)) && StateAt(p, now, p.Owner(c)) == Completed
      ensures At(zeta, p.full, c) == p.Final(c)
    {
      if p.Owner(c) != g { SameIndex(p.NumParts(), g); }
    }
  }

  ghost function Incomplete(parts: seq<Part>): set<int> {
    set m | 0 <= m < |parts| && parts[m].state != Completed
  }

  lemma IncompleteShrinks<T>(p: Problem<T>, before: seq<Part>, now: seq<Part>, m: int)
    requires p.Valid() && 0 <= m < |before| && before[m].state == Submitted
    requires GoodParts(p, Completing(before, m)) && PushedUpTo(p, Completing(before, m), now, |now|)
    ensures Incomplete(now) < Incomplete(before)
  {
    assert m in Incomplete(before) && m !in Incomplete(now);
  }

  /** When all the parts are complete, the whole surface is final. */
  lemma DoneIsFinal<T(0)>(gen: Generator<T>)
    requires gen.Valid() && gen.Done()
    ensures forall c | InBox(c, ORIGIN, gen.problem.full) ::
              At(gen.zeta, gen.problem.full, c) == gen.problem.Final(c)
  {
    forall c | InBox(c, ORIGIN, gen.problem.full)
      ensures At(gen.zeta, gen.problem.full, c) == gen.problem.Final(c)
    {
      OwnerInGrid(gen.problem, c);
      CellOfIndex(gen.problem.NumParts(), gen.problem.Owner(c));
    }
  }

  /** The wave moves on: some part is submitted, and the next pass has nothing to submit. */
  ghost predicate Moving<T(0)>(gen: Generator<T>, was: seq<Part>)
    reads gen, gen.zeta
  {
    gen.Valid() && GoodParts(gen.problem, was) && PushedUpTo(gen.problem, was, gen.parts, |was|)
  }

  /** Any outstanding part is computed somewhere and comes back. */
  method ReturnOne<T(0)>(gen: Generator<T>, ghost was: seq<Part>) returns (done: bool, ghost next: seq<Part>)
    requires Moving(gen, was) && !gen.Done()
    modifies gen`parts, gen`sent, gen.zeta
    ensures Moving(gen, next) && Incomplete(gen.parts) < Incomplete(old(gen.parts))
    ensures done <==> gen.Done()
  {
    hide Index, CellOf, Vec.Product, Problem.PartAt, Problem.Owner, Problem.Noise, Message;
    hide WaveClosed, SurfaceSoFar, Ready, Pushed;
    ghost var m := NeverStalls(gen.problem, was, gen.parts);
    assert exists a | 0 <= a < |gen.sent| :: gen.sent[a].part.index == m;
    var a :| 0 <= a < |gen.sent| && 0 <= gen.sent[a].part.index < |gen.parts|
             && gen.parts[gen.sent[a].part.index].state == Submitted;
    var task := gen.sent[a];
    ghost var g := CellOf(gen.problem.NumParts(), task.part.index);
    ghost var before := gen.parts;
    IndexCellOf(gen.problem.NumParts(), task.part.index);
    var reply := Execute(gen.problem, task.part, task.payload, g);
    done := gen.React(task.part, reply, g);
    next := Completing(before, task.part.index);
    IncompleteShrinks(gen.problem, before, gen.parts, task.part.index);
  }

  /** A whole run. Which of the outstanding parts returns next is arbitrary; in every order the
      run ends, and then each cell of the surface has its final value. */
  method Run<T(0)>(p: Problem<T>) returns (gen: Generator<T>)
    requires p.Valid()
    ensures fresh(gen) && gen.problem == p && gen.Valid() && gen.Done()
    ensures forall c | InBox(c, ORIGIN, p.full) :: At(gen.zeta, p.full, c) == p.Final(c)
    ensures p.Solves(gen.zeta[..])
  {
    gen := new Generator(p);
    ghost var was := gen.parts;
    var done := gen.PushKernels();
    while !done
      invariant fresh(gen) && fresh(gen.zeta) && gen.problem == p && Moving(gen, was) && done == gen.Done()
      decreases Incomplete(gen.parts)
    {
      done, was := ReturnOne(gen, was);
    }
    DoneIsFinal(gen);
    SurfaceSolves(p, gen.zeta);
  }

  method NoisePart<T>(p: Problem<T>, part: Part, zeta: array<T>, ghost g: Vec)
    requires p.Valid() && p.InGrid(g) && part == p.PartAt(g).(state := part.state)
    requires zeta.Length == p.full.Product()
    modifies zeta
    ensures forall c | InBox(c, ORIGIN, p.full) ::
              At(zeta, p.full, c) == if p.Owner(c) == g then p.Noise(c) else old(At(zeta, p.full, c))
  {
    PartsTileDomain(p, g, ORIGIN);
    DrawNoise(p, zeta, p.full, part.Low(), part.end);
    forall c | InBox(c, ORIGIN, p.full)
      ensures At(zeta, p.full, c) == if p.Owner(c) == g then p.Noise(c) else old(At(zeta, p.full, c))
    {
      PartsTileDomain(p, g, c);
    }
  }

  /** The noise of the whole surface, part after part. */
  method GenerateWhiteNoise<T>(p: Problem<T>, parts: seq<Part>, zeta: array<T>)
    requires p.Valid() && GoodParts(p, parts) && zeta.Length == p.full.Product()
    modifies zeta
    ensures forall c | InBox(c, ORIGIN, p.full) :: At(zeta, p.full, c) == p.Noise(c)
  {
    OwnersNumbered(p);
    for m := 0 to |parts|
      invariant forall c | InBox(c, ORIGIN, p.full) ::
                  Index(p.NumParts(), p.Owner(c)) < m ==> At(zeta, p.full, c) == p.Noise(c)
    {
      ghost var g := CellOf(p.NumParts(), m);
      IndexCellOf(p.NumParts(), m);
      NoisePart(p, parts[m], zeta, g);
      SameIndex(p.NumParts(), g);
    }
  }

  lemma OwnersNumbered<T>(p: Problem<T>)
    requires p.Valid()
    ensures forall c | InBox(c, ORIGIN, p.full) ::
              p.InGrid(p.Owner(c)) && 0 <= Index(p.NumParts(), p.Owner(c)) < p.NumParts().Product()
  {
    forall c | InBox(c, ORIGIN, p.full)
      ensures p.InGrid(p.Owner(c)) && 0 <= Index(p.NumParts(), p.Owner(c)) < p.NumParts().Product()
    {
      OwnerInGrid(p, c);
      CellOfIndex(p.NumParts(), p.Owner(c));
    }
  }

  /** The sequential computation of the whole surface in place. */
  method GenerateSurface<T>(p: Problem<T>, zeta: array<T>)
    requires p.Valid() && zeta.Length == p.full.Product()
    requires forall c | InBox(c, ORIGIN, p.full) :: At(zeta, p.full, c) == p.Noise(c)
    modifies zeta
    ensures forall c | InBox(c, ORIGIN, p.full) :: At(zeta, p.full, c) == p.Final(c)
    ensures p.Solves(zeta[..])
  {
    hide Problem.Solves, Index;
    assert forall c :: ORIGIN.Plus(c) == c;
    Sweep(p, zeta, ORIGIN, ORIGIN, p.full);
    SurfaceSolves(p, zeta);
  }

  lemma SurfaceSolves<T>(p: Problem<T>, zeta: array<T>)
    requires p.Valid() && zeta.Length == p.full.Product()
    requires forall c | InBox(c, ORIGIN, p.full) :: At(zeta, p.full, c) == p.Final(c)
    ensures p.Solves(zeta[..])
  {
    forall c | InBox(c, ORIGIN, p.full)
      ensures 0 <= Index(p.full, c) < zeta.Length && zeta[..][Index(p.full, c)] == p.Final(c)
    {
      CellOfIndex(p.full, c);
      assert At(zeta, p.full, c) == p.Final(c);
    }
    FinalSolves(p, zeta[..]);
  }

  /** The check at the end of a run: the residual between the surface that the parts have
      computed in some order and the sequential reference is nought. */
  method Verify<T(0)>(p: Problem<T>) returns (zeta: array<T>, reference: array<T>)
    requires p.Valid()
    ensures zeta != reference && zeta[..] == reference[..] && zeta.Length == p.full.Product()
    ensures forall c | InBox(c, ORIGIN, p.full) :: At(zeta, p.full, c) == p.Final(c)
    ensures p.Solves(zeta[..])
  {
    var gen := Run(p);
    zeta := gen.zeta;
    reference := new T[p.full.Product()];
    GenerateWhiteNoise(p, gen.parts, reference);
    GenerateSurface(p, reference);
    FinalIsUnique(p, zeta, reference);
  }

  lemma FinalIsUnique<T>(p: Problem<T>, a: array<T>, b: array<T>)
    requires p.Valid() && a.Length == b.Length == p.full.Product()
    requires forall c | InBox(c, ORIGIN, p.full) :: At(a, p.full, c) == p.Final(c)
    requires forall c | InBox(c, ORIGIN, p.full) :: At(b, p.full, c) == p.Final(c)
    ensures a[..] == b[..]
  {
    forall n | 0 <= n < a.Length ensures a[n] == b[n] {
      IndexCellOf(p.full, n);
      assert At(a, p.full, CellOf(p.full, n)) == At(b, p.full, CellOf(p.full, n));
    }
  }
}
