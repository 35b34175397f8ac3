/** Positions in a tree in which every node has the same number of children. Layers are numbered
    from the root, offsets from the left, and all arithmetic is that of 32-bit unsigned integers. */
module TreePosition {
  import opened Arithmetic

  const W := 0x1_0000_0000

  function Wrap(x: int): (r: int)
    ensures 0 <= r < W && (0 <= x < W ==> r == x)
  {
    x % W
  }

  /** The number of nodes in the layer `l`. */
  function Pow(f: nat, l: nat): nat {
    if l == 0 then 1 else Pow(f, l - 1) * f
  }

  /** The number of nodes above the layer `l`. */
  function First(f: nat, l: nat): nat {
    if l == 0 then 0 else First(f, l - 1) + Pow(f, l - 1)
  }

  datatype Pos = Pos(layer: int, offset: int, fanout: int) {

    ghost predicate WellFormed() {
      1 <= fanout && 0 <= layer && 0 <= offset < Pow(fanout, layer)
    }

    /** The number of positions before this one, layer after layer. */
    ghost function Linear(): int
      requires 0 <= fanout && 0 <= layer
    {
      First(fanout, layer) + offset
    }

    ghost function Parent(): Pos
      requires fanout != 0
    {
      Pos(layer - 1, offset / fanout, fanout)
    }
  }

  lemma {:induction false} PowPositive(f: nat, l: nat)
    requires 1 <= f
    ensures 1 <= Pow(f, l)
  {
    if 0 < l {
      PowPositive(f, l - 1);
      MulMono(1, f, Pow(f, l - 1));
    }
  }

  lemma {:induction false} FirstMono(f: nat, l: nat, m: nat)
    requires 1 <= f && l <= m
    ensures First(f, l) + (m - l) <= First(f, m)
    ensures l < m ==> First(f, l) + Pow(f, l) <= First(f, m)
    decreases m - l
  {
    if l < m {
      PowPositive(f, l);
      FirstMono(f, l + 1, m);
    }
  }

  lemma Distribute(a: int, b: int, f: int)
    ensures (a + b) * f == a * f + b * f
  {
  }

  /** The children of a layer fill the next one: counting nodes above a layer commutes with
      going to the parents. */
  lemma {:induction false} FirstOfChildren(f: nat, l: nat)
    ensures First(f, l + 1) == First(f, l) * f + 1
  {
    if 0 < l {
      FirstOfChildren(f, l - 1);
      Distribute(First(f, l - 1), Pow(f, l - 1), f);
    }
  }

  /** Positions are ordered as their numbers are, hence the number determines the position. */
  lemma LinearOrder(a: Pos, b: Pos)
    requires a.WellFormed() && b.WellFormed() && a.fanout == b.fanout
    ensures a.Linear() < b.Linear() <==> a.layer < b.layer || (a.layer == b.layer && a.offset < b.offset)
    ensures a.Linear() == b.Linear() <==> a == b
  {
    if a.layer < b.layer {
      FirstMono(a.fanout, a.layer, b.layer);
    } else if b.layer < a.layer {
      FirstMono(a.fanout, b.layer, a.layer);
    }
  }

  lemma HeapParent(above: int, offset: int, f: int)
    requires 1 <= f
    ensures (above * f + offset) / f == above + offset / f
  {
    var q := above + offset / f;
    assert q * f == above * f + (offset / f) * f;
    assert offset == (offset / f) * f + offset % f;
    DivModUnique(q, offset % f, f);
  }

  /** The parent of the node number `q` has the number `(q - 1) / f`, as in a heap. */
  lemma ParentIsHeapParent(a: Pos)
    requires a.WellFormed() && 0 < a.layer
    ensures a.Parent().WellFormed()
    ensures a.Parent().Linear() == (a.Linear() - 1) / a.fanout
  {
    var f, l := a.fanout, a.layer;
    DivLess(a.offset, Pow(f, l - 1), f);
    FirstOfChildren(f, l - 1);
    HeapParent(First(f, l - 1), a.offset, f);
  }

  /** The layer of the node with the 1-based number `p`. */
  ghost predicate InLayer(p: int, f: nat, l: nat) {
    First(f, l) < p <= First(f, l + 1)
  }

  lemma LayerExists(p: int, f: nat) returns (l: nat)
    requires 1 <= p && 1 <= f
    ensures InLayer(p, f, l)
  {
    l := 0;
    while First(f, l + 1) < p
      invariant First(f, l) < p
      decreases p - First(f, l)
    {
      PowPositive(f, l);
      l := l + 1;
    }
  }

  lemma LayerUnique(p: int, f: nat, l: nat, m: nat)
    requires 1 <= f && InLayer(p, f, l) && InLayer(p, f, m)
    ensures l == m
  {
    if l < m {
      FirstMono(f, l + 1, m);
    } else if m < l {
      FirstMono(f, m + 1, l);
    }
  }

  /** The size of the layer of `p`, reduced to 32 bits, still covers `p`. */
  ghost predicate Representable(p: int, f: nat) {
    forall l: nat | InLayer(p, f, l) :: p - First(f, l) <= Wrap(Pow(f, l))
  }

  /** A number times the fan-out that fits into 32 bits is always representable. */
  lemma SmallIsRepresentable(p: int, f: nat)
    requires 1 <= p && 1 <= f && p * f < W
    ensures Representable(p, f)
  {
    forall l: nat | InLayer(p, f, l) ensures p - First(f, l) <= Wrap(Pow(f, l)) {
      PowPositive(f, l);
      if 0 < l {
        FirstMono(f, l - 1, l);
        MulMono(Pow(f, l - 1), p, f);
      }
      assert Pow(f, l) < W;
    }
  }

  /** The loop of the constructor: what is left of the number, the layer and its size. */
  datatype Search = Search(rest: int, layer: int, n: int) {
    predicate Stopped() { rest <= n }

    function Step(f: nat): Search {
      if Stopped() then this else Search(rest - n, layer + 1, Wrap(n * f))
    }
  }

  function Searched(p: int, f: nat, steps: nat): Search {
    if steps == 0 then Search(p, 0, 1) else Searched(p, f, steps - 1).Step(f)
  }

  /** Until the layer of `p` nothing overflows. */
  lemma {:induction false} SearchDescends(p: int, f: nat, l: nat, k: nat)
    requires 1 <= p < W && 1 <= f && InLayer(p, f, l) && k <= l
    ensures Searched(p, f, k) == Search(p - First(f, k), k, Wrap(Pow(f, k)))
    ensures k < l ==> Pow(f, k) < p - First(f, k)
    decreases k
  {
    if k < l { FirstMono(f, k, l); FirstMono(f, k + 1, l); }
    if 0 < k {
      SearchDescends(p, f, l, k - 1);
      assert Wrap(Pow(f, k - 1)) == Pow(f, k - 1);
    }
  }

  lemma {:induction false} SearchGoesOn(p: int, f: nat, k: nat, m: nat)
    requires k <= m
    ensures Searched(p, f, k).layer <= Searched(p, f, m).layer
    ensures Searched(p, f, k).Stopped() ==> Searched(p, f, m) == Searched(p, f, k)
    decreases m
  {
    if k < m { SearchGoesOn(p, f, k, m - 1); }
  }

  /** The search finds the layer and the offset of `p` if and only if `p` is representable. */
  lemma SearchExact(p: int, f: nat, l: nat)
    requires 1 <= p < W && 1 <= f && InLayer(p, f, l)
    ensures (exists k: nat :: Searched(p, f, k).Stopped() && Searched(p, f, k).layer == l)
            <==> Representable(p, f)
    ensures forall k: nat :: Searched(p, f, k).Stopped() && Searched(p, f, k).layer == l
                             ==> First(f, l) + Searched(p, f, k).rest == p
  {
    SearchDescends(p, f, l, l);
    forall m: nat | InLayer(p, f, m) ensures m == l { LayerUnique(p, f, l, m); }
    forall k: nat | Searched(p, f, k).Stopped() && Searched(p, f, k).layer == l
      ensures Searched(p, f, k) == Searched(p, f, l)
    {
      if k < l {
        SearchDescends(p, f, l, k);
      } else if !Searched(p, f, l).Stopped() {
        if l < k {
          assert Searched(p, f, l + 1).layer == l + 1;
          SearchGoesOn(p, f, l + 1, k);
        }
      } else {
        SearchGoesOn(p, f, l, k);
      }
    }
  }

  /** With 65536 children a node the size of the third layer is reduced to nought, and the
      search never ends for its first node. */
  lemma {:induction false} SearchMayNotEnd(k: nat)
    requires 2 <= k
    ensures Searched(65538, 65536, k) == Search(1, k, 0) && !Searched(65538, 65536, k).Stopped()
    decreases k
  {
    if k == 2 {
      assert Searched(65538, 65536, 0) == Search(65538, 0, 1);
      assert Searched(65538, 65536, 1) == Search(65537, 1, 65536);
    } else {
      SearchMayNotEnd(k - 1);
    }
  }

  /** One turn of the loops that count the nodes layer after layer. */
  lemma NextLayer(f: nat, l: nat, x: int)
    requires 1 <= f && First(f, l + 1) <= x < W
    ensures First(f, l + 1) == First(f, l) + Pow(f, l) && 0 <= First(f, l) && 1 <= Pow(f, l) < W
    ensures Wrap(Pow(f, l) * f) == Wrap(Pow(f, l + 1))
  {
    PowPositive(f, l);
    FirstMono(f, 0, l);
  }

  /** One turn of the search: it goes on above the layer of `p` and stops in it. */
  lemma SearchStep(p: int, f: nat, l: nat, k: nat)
    requires 1 <= p < W && 1 <= f && InLayer(p, f, l) && Representable(p, f) && k <= l
    ensures var s := Searched(p, f, k);
            && s.layer == k && (k == 0 ==> s == Search(p, 0, 1))
            && (!s.Stopped() ==> k < l && Searched(p, f, k + 1) == Search(s.rest - s.n, k + 1, Wrap(s.n * f)))
            && (s.Stopped() ==> 1 <= s.rest < W && s.rest - 1 < Wrap(Pow(f, k))
                                && Pos(k, s.rest - 1, f).WellFormed() && Pos(k, s.rest - 1, f).Linear() + 1 == p)
  {
    SearchDescends(p, f, l, k);
    if k < l { FirstMono(f, k + 1, l); }
    FirstMono(f, 0, k);
    PowPositive(f, k);
    hide Pow, First;
  }

  lemma WrapMinusOne()
    ensures Wrap(-1) == W - 1
  {
  }

  /** A position that moves over the tree. */
  class Position {
    var layer: int
    var offset: int
    var fanout: int

    ghost function Value(): Pos
      reads this
    {
      Pos(layer, offset, fanout)
    }

    constructor At(layer: int, offset: int, fanout: int)
      ensures Value() == Pos(layer, offset, fanout)
    {
      this.layer, this.offset, this.fanout := layer, offset, fanout;
    }

    /** The position with the given 1-based number. */
    constructor (linear: int, fanout: int)
      requires 0 <= linear < W && 1 <= fanout < W
      requires 1 <= linear ==> Representable(linear, fanout)
      ensures 1 <= linear ==> Value().WellFormed() && Value().Linear() + 1 == linear && this.fanout == fanout
      ensures 1 <= linear ==> offset < Wrap(Pow(fanout, layer))
      ensures linear == 0 ==> Value() == Pos(0, W - 1, fanout)
    {
      hide Wrap, Pow, First, Searched, Representable, Pos.WellFormed, Pos.Linear;
      var rest, l, n := linear, 0, 1;
      ghost var target := 0;
      if 1 <= linear {
        target := LayerExists(linear, fanout);
        SearchStep(linear, fanout, target, 0);
      }
      while n < rest
        invariant 0 <= l <= target && (linear == 0 ==> rest == l == 0 && n == 1)
        invariant 1 <= linear ==> Search(rest, l, n) == Searched(linear, fanout, l)
        decreases target - l
      {
        SearchStep(linear, fanout, target, l);
        rest, l, n := rest - n, l + 1, Wrap(n * fanout);
      }
      if 1 <= linear { SearchStep(linear, fanout, target, l); }
      WrapMinusOne();
      this.layer, this.offset, this.fanout := l, Wrap(rest - 1), fanout;
    }

    method Assign(that: Position)
      modifies this
      ensures Value() == that.Value()
    {
      layer, offset, fanout := that.layer, that.offset, that.fanout;
    }

    /** The 0-based number of the position. */
    method ToPositionInAddressRange() returns (pos: int)
      requires Value().WellFormed() && Value().Linear() < W
      ensures pos == Value().Linear()
    {
      hide Wrap;
      var l, n := 0, 1;
      pos := 0;
      ghost var x := Value().Linear();
      while l < layer
        invariant 0 <= l <= layer && pos == First(fanout, l) && n == Wrap(Pow(fanout, l))
      {
        hide First, Pow;
        FirstMono(fanout, l + 1, layer);
        NextLayer(fanout, l, x);
        pos := Wrap(pos + n);
        n := Wrap(n * fanout);
        l := l + 1;
      }
      FirstMono(fanout, 0, layer);
      pos := Wrap(pos + offset);
    }

    method NumNodes() returns (n: int)
      requires 0 <= layer && 0 <= fanout
      ensures n == Wrap(Pow(fanout, layer))
    {
      n := 1;
      for l := 0 to layer
        invariant n == Wrap(Pow(fanout, l))
      {
        WrapProduct(Pow(fanout, l), fanout);
        n := Wrap(n * fanout);
      }
    }

    method IsLast() returns (last: bool)
      requires Value().WellFormed() && Pow(fanout, layer) < W
      ensures last <==> offset + 1 == Pow(fanout, layer)
    {
      var n := NumNodes();
      last := offset == Wrap(n - 1);
    }

    predicate IsRoot()
      reads this
    {
      layer == 0 && offset == 0
    }

    method DecrementLayer()
      modifies this
      ensures Value() == if 0 < old(layer) then Pos(old(layer) - 1, 0, old(fanout)) else old(Value())
    {
      if layer > 0 {
        layer := layer - 1;
        offset := 0;
      }
    }

    /** The next position, unless the size of the layer has overflown and misleads. */
    method Increment()
      requires Value().WellFormed() && Value().Linear() + 1 < W
      requires offset + 1 < Wrap(Pow(fanout, layer)) || Pow(fanout, layer) < W
      modifies this
      ensures Value().WellFormed() && Value().Linear() == old(Value().Linear()) + 1 && fanout == old(fanout)
      ensures Value() == old(if offset + 1 < Pow(fanout, layer) then Pos(layer, offset + 1, fanout)
                             else Pos(layer + 1, 0, fanout))
    {
      hide Wrap;
      FirstMono(fanout, 0, layer);
      var n := NumNodes();
      if offset == Wrap(n - 1) {
        layer := layer + 1;
        offset := 0;
        PowPositive(fanout, layer);
      } else {
        offset := Wrap(offset + 1);
      }
    }

    /** The previous position; the root stays where it is. */
    method Decrement()
      requires Value().WellFormed() && Value().Linear() < W
      modifies this
      ensures Value().WellFormed() && fanout == old(fanout)
      ensures Value().Linear() == if old(Value().Linear()) == 0 then 0 else old(Value().Linear()) - 1
    {
      if layer == 0 && offset == 0 { return; }
      hide Wrap, Pow, First;
      FirstMono(fanout, 0, layer);
      if offset == 0 {
        NextLayer(fanout, layer - 1, Value().Linear());
        layer := layer - 1;
        var n := NumNodes();
        offset := Wrap(n - 1);
      } else {
        offset := offset - 1;
      }
    }
  }

  lemma WrapProduct(a: int, f: int)
    ensures Wrap(Wrap(a) * f) == Wrap(a * f)
  {
    var q := a / W;
    assert a == q * W + Wrap(a);
    assert a * f == (q * f) * W + Wrap(a) * f by {
      assert a * f == (q * W) * f + Wrap(a) * f;
      assert (q * W) * f == (q * f) * W;
    }
    WrapShift(q * f, Wrap(a) * f);
  }

  lemma WrapShift(q: int, r: int)
    ensures Wrap(q * W + r) == Wrap(r)
  {
    var m := r / W;
    assert r == m * W + r % W;
    DivModUnique(q + m, r % W, W);
  }
}
