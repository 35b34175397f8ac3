/** The order in which a node probes the other nodes of its network for a superior. */
module TreeIterator {
  import opened Arithmetic
  import opened TreePosition

  function Range(lo: int, hi: int): (r: seq<int>)
    requires lo <= hi
    ensures |r| == hi - lo && forall i | 0 <= i < |r| :: r[i] == lo + i
  {
    seq(hi - lo, i requires 0 <= i < hi - lo => lo + i)
  }

  /** The layers from `l` up to the root, each one from left to right. */
  ghost function Upwards(f: nat, l: nat): seq<int>
    requires 1 <= f
  {
    PowPositive(f, l);
    Range(First(f, l), First(f, l + 1)) + if l == 0 then [] else Upwards(f, l - 1)
  }

  ghost function Without(s: seq<int>, i: int): seq<int>
    requires 0 <= i < |s|
  {
    s[..i] + s[i + 1..]
  }

  /** The 0-based numbers of the nodes that the node `base` probes: its parent, the other nodes of
      the layers above, and the nodes to the left of it in its own layer. */
  ghost function Order(base: Pos): seq<int>
    requires base.WellFormed()
  {
    var f, l := base.fanout, base.layer;
    if l == 0 then []
    else
      UpwardsLength(f, l - 1);
      ParentIsHeapParent(base);
      FirstMono(f, l - 1, l);
      [base.Parent().Linear()] + Without(Upwards(f, l - 1), base.Parent().offset) + Range(First(f, l), base.Linear())
  }

  lemma {:induction false} UpwardsLength(f: nat, l: nat)
    requires 1 <= f
    ensures |Upwards(f, l)| == First(f, l + 1) && Pow(f, l) <= First(f, l + 1)
  {
    FirstMono(f, 0, l);
    PowPositive(f, l);
    if 0 < l { UpwardsLength(f, l - 1); }
  }

  /** Where the node `o` of the layer `m` stands among the layers from `l` upwards. */
  lemma {:induction false} UpwardsAt(f: nat, l: nat, m: nat, o: int)
    requires 1 <= f && m <= l && 0 <= o < Pow(f, m)
    ensures |Upwards(f, l)| == First(f, l + 1)
    ensures 0 <= First(f, l + 1) - First(f, m + 1) + o < |Upwards(f, l)|
    ensures Upwards(f, l)[First(f, l + 1) - First(f, m + 1) + o] == First(f, m) + o
    decreases l
  {
    UpwardsLength(f, l);
    PowPositive(f, l);
    if m < l {
      UpwardsAt(f, l - 1, m, o);
    } else {
      FirstMono(f, 0, l);
    }
  }

  ghost predicate OneEach(s: seq<int>, lo: int, hi: int) {
    forall x :: multiset(s)[x] == if lo <= x < hi then 1 else 0
  }

  lemma {:induction false} RangeOneEach(lo: int, hi: int)
    requires lo <= hi
    ensures OneEach(Range(lo, hi), lo, hi)
    decreases hi - lo
  {
    if lo < hi {
      RangeOneEach(lo, hi - 1);
      assert Range(lo, hi) == Range(lo, hi - 1) + [hi - 1];
    }
  }

  lemma {:induction false} UpwardsOneEach(f: nat, l: nat)
    requires 1 <= f
    ensures OneEach(Upwards(f, l), 0, First(f, l + 1))
  {
    PowPositive(f, l);
    hide OneEach, Range, Pow;
    RangeOneEach(First(f, l), First(f, l + 1));
    if 0 < l {
      UpwardsOneEach(f, l - 1);
    } else {
      NoneEach(0);
    }
    var upper: seq<int> := if l == 0 then [] else Upwards(f, l - 1);
    var layer := Range(First(f, l), First(f, l + 1));
    assert Upwards(f, l) == layer + upper;
    OneEachSum(upper, layer, Upwards(f, l), 0, First(f, l), First(f, l + 1));
  }

  lemma Rearranged(upper: seq<int>, i: int, tail: seq<int>)
    requires 0 <= i < |upper|
    ensures var s := [upper[i]] + Without(upper, i) + tail;
            && |s| == |upper| + |tail| && multiset(s) == multiset(upper) + multiset(tail)
            && (forall j | 0 <= j < |upper| && j != i :: s[if j < i then j + 1 else j] == upper[j])
            && (forall j | 0 <= j < |tail| :: s[|upper| + j] == tail[j])
  {
    assert upper == upper[..i] + [upper[i]] + upper[i + 1..];
  }

  lemma OneEachSum(s: seq<int>, t: seq<int>, u: seq<int>, lo: int, mid: int, hi: int)
    requires lo <= mid <= hi && OneEach(s, lo, mid) && OneEach(t, mid, hi)
    requires multiset(u) == multiset(s) + multiset(t)
    ensures OneEach(u, lo, hi)
  {
  }

  lemma RangeAdded(s: seq<int>, mid: nat, hi: int, u: seq<int>)
    requires mid <= hi && OneEach(s, 0, mid) && multiset(u) == multiset(s) + multiset(Range(mid, hi))
    ensures OneEach(u, 0, hi)
  {
    RangeOneEach(mid, hi);
    OneEachSum(s, Range(mid, hi), u, 0, mid, hi);
  }

  lemma NoneEach(lo: int)
    ensures OneEach([], lo, lo)
  {
  }

  lemma {:induction false} Shifted(s: seq<int>, t: seq<int>, k: int, lo: int, hi: int)
    requires |s| == |t| && (forall i | 0 <= i < |s| :: t[i] == s[i] + k) && OneEach(s, lo, hi)
    ensures OneEach(t, lo + k, hi + k)
  {
    forall x ensures multiset(t)[x] == multiset(s)[x - k] { ShiftedCount(s, t, k, x); }
  }

  lemma {:induction false} ShiftedCount(s: seq<int>, t: seq<int>, k: int, x: int)
    requires |s| == |t| && forall i | 0 <= i < |s| :: t[i] == s[i] + k
    ensures multiset(t)[x] == multiset(s)[x - k]
  {
    if s != [] {
      var n := |s| - 1;
      ShiftedCount(s[..n], t[..n], k, x);
      assert s == s[..n] + [s[n]] && t == t[..n] + [t[n]];
      assert multiset(s) == multiset(s[..n]) + multiset{s[n]} && multiset(t) == multiset(t[..n]) + multiset{t[n]};
    }
  }

  /** The order of the probes, taken apart. */
  lemma OrderParts(base: Pos)
    requires base.WellFormed() && 0 < base.layer
    ensures var f, l := base.fanout, base.layer;
            && base.Parent().WellFormed() && base.Parent().Linear() == (base.Linear() - 1) / f
            && 0 <= base.Parent().offset < |Upwards(f, l - 1)| == First(f, l) <= base.Linear()
            && Upwards(f, l - 1)[base.Parent().offset] == base.Parent().Linear()
            && Order(base) == [Upwards(f, l - 1)[base.Parent().offset]]
                              + Without(Upwards(f, l - 1), base.Parent().offset) + Range(First(f, l), base.Linear())
  {
    ParentIsHeapParent(base);
    UpwardsAt(base.fanout, base.layer - 1, base.layer - 1, base.Parent().offset);
  }

  /** The order holds the layers above and the left part of the own layer, rearranged. */
  lemma OrderHolds(base: Pos)
    requires base.WellFormed() && 0 < base.layer
    ensures var f, l := base.fanout, base.layer;
            && First(f, l) <= base.Linear() && |Order(base)| == base.Linear()
            && multiset(Order(base)) == multiset(Upwards(f, l - 1)) + multiset(Range(First(f, l), base.Linear()))
  {
    hide Order, Upwards, Without, Range;
    OrderParts(base);
    Rearranged(Upwards(base.fanout, base.layer - 1), base.Parent().offset,
               Range(First(base.fanout, base.layer), base.Linear()));
  }

  lemma OrderOfRoot(base: Pos)
    requires base.WellFormed() && base.layer == 0
    ensures Order(base) == [] && base.Linear() == 0 && OneEach([], 0, 0)
  {
    assert Pow(base.fanout, 0) == 1;
  }

  lemma OrderOneEach(base: Pos)
    requires base.WellFormed() && 0 < base.layer
    ensures OneEach(Order(base), 0, base.Linear())
  {
    hide Order, Upwards, Range, OneEach, First, Pos.Linear;
    OrderHolds(base);
    UpwardsOneEach(base.fanout, base.layer - 1);
    RangeAdded(Upwards(base.fanout, base.layer - 1), First(base.fanout, base.layer), base.Linear(), Order(base));
  }

  lemma OrderBegins(base: Pos)
    requires base.WellFormed() && 0 < base.layer
    ensures Order(base) != [] && Order(base)[0] == (base.Linear() - 1) / base.fanout
  {
    OrderParts(base);
    hide *;
  }

  /** Every node with a lower number is probed exactly once, and no other one; the first one is
      the parent of the node in the tree. */
  lemma OrderIsComplete(base: Pos)
    requires base.WellFormed()
    ensures OneEach(Order(base), 0, base.Linear()) && |Order(base)| == base.Linear()
    ensures base.Linear() != 0 ==> Order(base)[0] == (base.Linear() - 1) / base.fanout
  {
    if 0 < base.layer {
      OrderHolds(base);
      OrderOneEach(base);
      OrderBegins(base);
      hide *;
    } else {
      OrderOfRoot(base);
    }
  }

  /** The place of an upper node other than the parent in the order. */
  ghost function UpperSlot(base: Pos, c: Pos): int
    requires base.WellFormed() && 0 < base.layer && c.WellFormed() && c.fanout == base.fanout
  {
    var i := First(base.fanout, base.layer) - First(base.fanout, c.layer + 1) + c.offset;
    if c.layer == base.layer - 1 && c.offset < base.Parent().offset then i + 1 else i
  }

  lemma OrderAtUpper(base: Pos, c: Pos)
    requires base.WellFormed() && 0 < base.layer && c.WellFormed() && c.fanout == base.fanout
    requires c.layer < base.layer && c != base.Parent()
    ensures |Order(base)| == base.Linear()
    ensures 1 <= UpperSlot(base, c) < First(base.fanout, base.layer) <= base.Linear()
    ensures Order(base)[UpperSlot(base, c)] == c.Linear()
  {
    var f, l := base.fanout, base.layer;
    hide Order, Upwards, Range, Without, Pow, UpperSlot;
    OrderParts(base);
    UpwardsAt(f, l - 1, c.layer, c.offset);
    Rearranged(Upwards(f, l - 1), base.Parent().offset, Range(First(f, l), base.Linear()));
    UpperSlotIs(base, c);
    var j := First(f, l) - First(f, c.layer + 1) + c.offset;
    assert Upwards(f, l - 1)[j] == c.Linear();
  }

  lemma UpperSlotIs(base: Pos, c: Pos)
    requires base.WellFormed() && 0 < base.layer && c.WellFormed() && c.fanout == base.fanout
    requires base.Parent().WellFormed() && c.layer < base.layer && c != base.Parent()
    ensures var j := First(base.fanout, base.layer) - First(base.fanout, c.layer + 1) + c.offset;
            var po := base.Parent().offset;
            j != po && UpperSlot(base, c) == if j < po then j + 1 else j
  {
    FirstMono(base.fanout, c.layer + 1, base.layer);
    if c.layer < base.layer - 1 { FirstMono(base.fanout, c.layer + 1, base.layer - 1); }
  }

  lemma OrderAtBase(base: Pos, o: int)
    requires base.WellFormed() && 0 < base.layer && 0 <= o < base.offset
    ensures |Order(base)| == base.Linear() && 0 <= First(base.fanout, base.layer)
    ensures Order(base)[First(base.fanout, base.layer) + o] == First(base.fanout, base.layer) + o
  {
    var f, l := base.fanout, base.layer;
    OrderParts(base);
    Rearranged(Upwards(f, l - 1), base.Parent().offset, Range(First(f, l), base.Linear()));
  }

  datatype State = Initial | TraversingParentNode | TraversingUpperLayers | TraversingBaseLayer | End

  /** The next node of the upper layers: to the right, or the first one of the layer above. */
  ghost function Advanced(c: Pos): Pos
    requires 0 <= c.layer && 0 <= c.fanout
  {
    if c.offset + 1 < Pow(c.fanout, c.layer) then c.(offset := c.offset + 1)
    else if 0 < c.layer then Pos(c.layer - 1, 0, c.fanout) else c
  }

  /** Advancing past the parent moves on by one place in the order. */
  lemma AdvanceIsNext(base: Pos, c: Pos)
    requires base.WellFormed() && 0 < base.layer && c.WellFormed() && c.fanout == base.fanout
    requires base.Parent().WellFormed() && 0 < c.layer < base.layer && c != base.Parent()
    ensures var n := if Advanced(c) == base.Parent() then Advanced(Advanced(c)) else Advanced(c);
            && n.WellFormed() && n.fanout == base.fanout && n.layer < base.layer && n != base.Parent()
            && UpperSlot(base, n) == UpperSlot(base, c) + 1
  {
    PowPositive(base.fanout, c.layer - 1);
    PowPositive(base.fanout, base.layer - 1);
    if 1 < base.layer { PowPositive(base.fanout, base.layer - 2); }
    FirstMono(base.fanout, c.layer, base.layer);
  }

  /** The traversal of the upper layers starts right after the parent. */
  lemma FirstUpper(base: Pos)
    requires base.WellFormed() && 1 < base.layer && base.Parent().WellFormed()
    ensures var c := Pos(base.layer - 1, 0, base.fanout);
            var n := if c == base.Parent() then Advanced(c) else c;
            && c.WellFormed() && n.WellFormed() && n.fanout == base.fanout && n.layer < base.layer
            && n != base.Parent() && UpperSlot(base, n) == 1
  {
    PowPositive(base.fanout, base.layer - 1);
    PowPositive(base.fanout, base.layer - 2);
    assert First(base.fanout, base.layer) == First(base.fanout, base.layer - 1) + Pow(base.fanout, base.layer - 1);
  }

  lemma RootIsLastUpper(base: Pos)
    requires base.WellFormed() && 0 < base.layer && base.Parent().WellFormed()
    ensures Pos(0, 0, base.fanout).WellFormed() && Pos(0, 0, base.fanout).Linear() == 0
    ensures base.layer == 1 ==> base.Parent() == Pos(0, 0, base.fanout) && First(base.fanout, 1) == 1
    ensures 1 < base.layer ==> UpperSlot(base, Pos(0, 0, base.fanout)) == First(base.fanout, base.layer) - 1
  {
    assert Pow(base.fanout, 0) == 1;
    assert First(base.fanout, 1) == First(base.fanout, 0) + Pow(base.fanout, 0);
  }

  /** Above the layer of a position nothing overflows. */
  lemma UpperFits(base: Pos, c: Pos)
    requires base.WellFormed() && c.WellFormed() && c.fanout == base.fanout && c.layer < base.layer
    ensures 0 <= c.Linear() < base.Linear() && Pow(c.fanout, c.layer) <= base.Linear()
  {
    LinearOrder(c, base);
    FirstMono(base.fanout, 0, c.layer);
    FirstMono(base.fanout, c.layer, base.layer);
  }

  /** Where the traversal of the upper layers goes first, before it passes over the parent. */
  ghost function UpperCandidate(base: Pos, starting: bool, c: Pos): Pos
    requires 0 <= c.layer && 0 <= c.fanout
  {
    if starting then Pos(base.layer - 1, 0, base.fanout) else Advanced(c)
  }

  ghost function UpperTarget(base: Pos, starting: bool, c: Pos): Pos
    requires 0 <= c.layer && 0 <= c.fanout && 1 <= base.layer && 1 <= base.fanout
  {
    var m := UpperCandidate(base, starting, c);
    if m == base.Parent() then (if 0 <= m.layer && 0 <= m.fanout then Advanced(m) else m) else m
  }

  /** One step of the traversal of the upper layers. */
  lemma UpperStep(base: Pos, starting: bool, c: Pos)
    requires base.WellFormed() && 0 < base.layer && base.Linear() < W && base.Parent().WellFormed()
    requires c.WellFormed() && c.fanout == base.fanout && c.layer < base.layer
    requires if starting then c == base.Parent() else 0 < c.layer && c != base.Parent()
    ensures var m := UpperCandidate(base, starting, c);
            && m.WellFormed() && m.fanout == base.fanout && Pow(m.fanout, m.layer) < W && m.Linear() + 1 < W
            && var n := UpperTarget(base, starting, c);
               && n.WellFormed() && n.fanout == base.fanout && 0 <= n.layer < base.layer && n.Linear() < W
               && (n.layer == 0 ==> n == Pos(0, 0, base.fanout) && n.Linear() == 0)
               && (base.layer == 1 ==> n == c == base.Parent() && First(base.fanout, 1) == 1)
               && (1 < base.layer ==>
                   && n != base.Parent() && n.Linear() != c.Linear()
                   && UpperSlot(base, n) == (if starting then 1 else UpperSlot(base, c) + 1)
                   && (n.layer == 0 ==> UpperSlot(base, n) + 1 == First(base.fanout, base.layer)))
  {
    var m := UpperCandidate(base, starting, c);
    RootIsLastUpper(base);
    if starting {
      if 1 < base.layer { FirstUpper(base); }
    } else {
      AdvanceIsNext(base, c);
    }
    PowPositive(base.fanout, base.layer - 1);
    if 0 < c.layer { PowPositive(base.fanout, c.layer - 1); }
    UpperFits(base, m);
    var n := if m == base.Parent() then Advanced(m) else m;
    UpperFits(base, n);
    LinearOrder(n, c);
  }

  /** One step of the traversal of the base layer, up to the position itself. */
  lemma BaseStep(base: Pos, starting: bool, c: Pos)
    requires base.WellFormed() && 0 < base.layer && base.Linear() + 1 < W
             && base.offset < Wrap(Pow(base.fanout, base.layer))
    requires !starting ==> c.layer == base.layer && c.fanout == base.fanout && 0 <= c.offset < base.offset
    ensures !starting ==>
              && c.WellFormed() && c.Linear() + 1 < W
              && c.offset + 1 < Wrap(Pow(c.fanout, c.layer)) && c.offset + 1 < Pow(c.fanout, c.layer)
    ensures var o := if starting then 0 else c.offset + 1;
            var n := Pos(base.layer, o, base.fanout);
            && n.WellFormed() && 0 < n.Linear() <= base.Linear() && o <= base.offset
            && (starting ==> n.Linear() == First(base.fanout, base.layer))
            && (!starting ==> n.Linear() == c.Linear() + 1)
            && (n == base ==> n.Linear() == base.Linear()) && (o == base.offset ==> n == base)
  {
    FirstMono(base.fanout, 0, base.layer);
    PowPositive(base.fanout, base.layer);
  }

  class Iterator {
    /** The first address of the network and the number of addresses to skip after it. */
    const first: int
    const skip: int
    const base: Position
    const parent: Position
    const current: Position
    var address: int
    var state: State
    var oldState: State
    /** How many addresses have been visited, the present one included. */
    ghost var count: int
    ghost const own: Pos

    ghost predicate Valid()
      reads this, base, parent, current
    {
      && base != current && parent != current
      && 1 <= first && 0 <= skip && 0 <= count
      && base.Value() == own && 1 <= own.fanout
      && (own.layer == 0 ==> state in {Initial, End} && count == 0)
      && (own.layer != 0 ==>
          && 0 < own.layer && own.WellFormed() && own.Linear() + 1 < W && own.offset < Wrap(Pow(own.fanout, own.layer))
          && own.Parent().WellFormed() && parent.Value() == own.Parent()
          && Located())
    }

    /** What the state of the iterator means for its place in the order. */
    ghost predicate Located()
      requires own.WellFormed() && 0 < own.layer && own.Parent().WellFormed()
      reads this, current
    {
      var c := current.Value();
      match state
      case Initial => count == 0 && address == 0
      case TraversingParentNode => count == 0 && address == 0
      case TraversingUpperLayers =>
        if oldState != state then c == own.Parent() && count == 1 && address == Address(c.Linear())
        else
          && c.WellFormed() && c.fanout == own.fanout && 0 < c.layer < own.layer && c != own.Parent()
          && count == UpperSlot(own, c) + 1 && address == Address(c.Linear())
      case TraversingBaseLayer =>
        if oldState != state then count == First(own.fanout, own.layer) && address == Address(0)
        else
          && c.layer == own.layer && c.fanout == own.fanout && 0 <= c.offset < own.offset
          && count == c.Linear() + 1 && address == Address(c.Linear())
      case End => count == |Order(own)|
    }

    ghost function Address(x: int): int { first + skip + x }

    /** The addresses that the iterator visits from the start to the end. */
    ghost function Addresses(): (r: seq<int>)
      requires own.layer != 0 ==> own.WellFormed()
    {
      if own.layer == 0 then [] else seq(|Order(own)|, i requires 0 <= i < |Order(own)| => Address(Order(own)[i]))
    }

    /** The current address is the one of its place in the order. */
    lemma Visited()
      requires Valid() && state != End && 0 < count
      ensures own.layer != 0 && count <= |Addresses()| && address == Addresses()[count - 1]
    {
      hide Pow, First, Order, Upwards, Without, Range, UpperSlot, OneEach;
      OrderParts(own);
      OrderHolds(own);
      RootIsLastUpper(own);
      FirstMono(own.fanout, 0, own.layer);
      var c := current.Value();
      if state == TraversingUpperLayers && oldState == state {
        OrderAtUpper(own, c);
      } else if state == TraversingBaseLayer {
        if oldState == state {
          OrderAtBase(own, c.offset);
        } else if 1 < own.layer {
          OrderAtUpper(own, Pos(0, 0, own.fanout));
        }
      }
    }

    /** The addresses of the lower positions, each one once, that of the parent first. */
    lemma AddressesAreLower()
      requires own.WellFormed()
      ensures |Addresses()| == own.Linear()
      ensures OneEach(Addresses(), first + skip, first + skip + own.Linear())
      ensures 0 < own.Linear() ==> Addresses()[0] == first + skip + (own.Linear() - 1) / own.fanout
    {
      hide Order;
      OrderIsComplete(own);
      if own.layer != 0 {
        Shifted(Order(own), Addresses(), first + skip, 0, own.Linear());
      }
    }

    /** Every address that is shown belongs to a lower position. */
    lemma ShownIsLower()
      requires Valid() && state != End && 0 < count
      ensures own.layer != 0 && first + skip <= address < first + skip + own.Linear()
    {
      hide Order, Pow, First, Pos.Linear;
      Visited();
      AddressesAreLower();
      assert multiset(Addresses())[address] != 0;
    }

    constructor (position: int, fanout: int, first: int, skip: int)
      requires 1 <= first && 1 <= fanout < W && 0 <= skip <= position < W
      requires skip < position ==> Representable(position - skip, fanout)
      ensures Valid() && fresh(base) && fresh(parent) && fresh(current)
      ensures this.first == first && this.skip == skip
      ensures position == skip ==> own.layer == 0
      ensures skip < position ==> own.WellFormed() && own.Linear() + 1 == position - skip && own.fanout == fanout
      ensures count <= |Addresses()| && (position == skip ==> Addresses() == [])
      ensures if |Addresses()| == 0 then state == End else state != End && count == 1 && address == Addresses()[0]
    {
      var b := new Position(position - skip, fanout);
      var p := new Position.At(Wrap(b.layer - 1), b.offset / fanout, fanout);
      var c := new Position.At(b.layer, b.offset, b.fanout);
      this.first, this.skip, this.base, this.parent, this.current := first, skip, b, p, c;
      this.address, this.state, this.oldState, this.count, this.own := 0, Initial, Initial, 0, b.Value();
      new;
      if own.layer != 0 {
        FirstMono(own.fanout, 0, own.layer);
        ParentIsHeapParent(own);
        OrderIsComplete(own);
        assert Wrap(b.layer - 1) == b.layer - 1;
      }
      Next();
    }

    /** Goes to the next address of the order, or to the end behind the last one. */
    method Next()
      requires Valid() && state != End
      modifies this`address, this`state, this`oldState, this`count, current
      ensures Valid()
      ensures if old(count) < |Addresses()|
              then state != End && count == old(count) + 1 && address == Addresses()[old(count)]
              else state == End && count == old(count)
    {
      hide Pow, First, Order, UpperSlot, Located, Pos.Linear, Pos.WellFormed;
      var before := address;
      Step();
      while before == address && state != End
        invariant Valid()
        invariant state != End ==> count == old(count) + if before == address then 0 else 1
        invariant state == End ==> count == old(count) == |Addresses()|
        decreases if before == address then Rank() + 1 else 0
      {
        before := address;
        Step();
      }
      if state != End { Visited(); }
    }

    ghost function Rank(): nat
      reads this
    {
      match state
      case Initial => 4
      case TraversingParentNode => 3
      case TraversingUpperLayers => 2
      case TraversingBaseLayer => 1
      case End => 0
    }

    method Step()
      requires Valid() && state != End
      modifies this`address, this`state, this`oldState, this`count, current
      ensures Valid()
      ensures state == End ==> count == old(count) == |Addresses()|
      ensures state != End ==> count == old(count) + if address == old(address) then 0 else 1
      ensures address == old(address) ==> Rank() < old(Rank())
    {
      match state
      case Initial => Init();
      case TraversingParentNode => TraverseParentNode();
      case TraversingUpperLayers => TraverseUpperLayers();
      case TraversingBaseLayer => TraverseBaseLayer();
    }

    method SetState(s: State)
      modifies this`state, this`oldState
      ensures state == s && oldState == old(state)
    {
      oldState := state;
      state := s;
    }

    method UpdateAddress()
      requires current.Value().WellFormed() && current.Value().Linear() < W
      modifies this`address
      ensures address == Address(current.Value().Linear())
    {
      var position := current.ToPositionInAddressRange();
      address := first + (skip + position);
    }

    method Init()
      requires Valid() && state == Initial
      modifies this`state, this`oldState
      ensures Valid()
      ensures if own.layer == 0 then state == End else state == TraversingParentNode
    {
      SetState(if base.layer == 0 then End else TraversingParentNode);
    }

    method TraverseParentNode()
      requires Valid() && state == TraversingParentNode
      modifies this`address, this`state, this`oldState, this`count, current
      ensures Valid() && state == TraversingUpperLayers && count == old(count) + 1 && address != old(address)
    {
      UpperFits(own, own.Parent());
      current.Assign(parent);
      UpdateAddress();
      SetState(TraversingUpperLayers);
      count := count + 1;
    }

    method AdvanceUpper()
      requires current.Value().WellFormed() && Pow(current.fanout, current.layer) < W
      requires current.Value().Linear() + 1 < W
      modifies current
      ensures current.Value() == old(Advanced(current.Value()))
    {
      var last := current.IsLast();
      if last {
        current.DecrementLayer();
      } else {
        current.Increment();
      }
    }

    /** Goes to the next node of the upper layers that is not the parent. */
    method MoveUp()
      requires Valid() && state == TraversingUpperLayers
      modifies this`oldState, current
      ensures current.Value() == old(UpperTarget(own, state != oldState, current.Value())) && oldState == state
    {
      ghost var c, starting := current.Value(), state != oldState;
      UpperStep(own, starting, c);
      hide Pow, First, Advanced, UpperSlot, Order, Wrap, Pos.Linear, Pos.WellFormed;
      if state != oldState {
        current.layer, current.offset, current.fanout := parent.layer, 0, base.fanout;
        oldState := state;
      } else {
        UpperFits(own, c);
        AdvanceUpper();
      }
      assert current.Value() == UpperCandidate(own, starting, c);
      // The parent has been visited in the first stage.
      if current.layer == parent.layer && current.offset == parent.offset && current.fanout == parent.fanout {
        AdvanceUpper();
      }
    }

    method TraverseUpperLayers()
      requires Valid() && state == TraversingUpperLayers
      modifies this`address, this`state, this`oldState, this`count, current
      ensures Valid() && state != End
      ensures count == old(count) + if address == old(address) then 0 else 1
      ensures address == old(address) ==> state == TraversingBaseLayer
    {
      UpperStep(own, state != oldState, current.Value());
      hide Pow, First, Advanced, UpperSlot, Order, Wrap, UpperTarget, UpperCandidate, Pos.Linear, Pos.WellFormed;
      MoveUp();
      UpdateAddress();
      if own.layer != 1 { count := count + 1; }
      if current.IsRoot() {
        SetState(TraversingBaseLayer);
      }
    }

    method TraverseBaseLayer()
      requires Valid() && state == TraversingBaseLayer
      modifies this`address, this`state, this`oldState, this`count, current
      ensures Valid()
      ensures state == End ==> count == old(count) == |Addresses()|
      ensures state != End ==> count == old(count) + 1 && address != old(address)
    {
      hide Pow, First, Order, UpperSlot, Wrap, Pos.Linear, Pos.WellFormed;
      BaseStep(own, state != oldState, current.Value());
      OrderIsComplete(own);
      if state != oldState {
        current.layer, current.offset, current.fanout := base.layer, 0, base.fanout;
        oldState := state;
      } else {
        current.Increment();
      }
      UpdateAddress();
      if current.layer == base.layer && current.offset == base.offset && current.fanout == base.fanout {
        SetState(End);
      } else {
        count := count + 1;
      }
    }
  }

  /** Runs an iterator to its end: the addresses it has shown are those of all lower positions,
      each one once, and the first of them is the parent's. */
  method Visit(position: int, fanout: int, first: int, skip: int) returns (shown: seq<int>)
    requires 1 <= first && 1 <= fanout < W && 0 <= skip <= position < W
    requires skip < position ==> Representable(position - skip, fanout)
    ensures |shown| == if skip < position then position - skip - 1 else 0
    ensures OneEach(shown, first + skip, first + skip + |shown|)
    ensures 0 < |shown| ==> shown[0] == first + skip + (position - skip - 2) / fanout
  {
    hide Representable, Order, Pow, First, OneEach, Pos.Linear, Pos.WellFormed, Iterator.Valid, Iterator.Addresses;
    var it := new Iterator(position, fanout, first, skip);
    shown := [];
    ghost var all := it.Addresses();
    if skip < position { it.AddressesAreLower(); }
    assert |all| == if skip < position then position - skip - 1 else 0;
    assert OneEach(all, first + skip, first + skip + |all|) by {
      if |all| == 0 { NoneEach(first + skip); }
    }
    hide *;
    while it.state != End
      invariant it.Valid() && fresh(it) && fresh(it.current) && it.Addresses() == all
      invariant if it.state == End then shown == all
                else 0 < it.count <= |all| && it.address == all[it.count - 1] && shown == all[..it.count - 1]
      decreases |all| - |shown|
    {
      shown := shown + [it.address];
      it.Next();
    }
  }
}
