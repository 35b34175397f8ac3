/** What one node knows about the nodes of its network: its own record and a table of records of
    the others, and the walks over the superiors that the records name. */
module Hierarchy {
  type Address = nat

  /** The empty address: a node without a superior has this one. */
  const NOWHERE: Address := 0
  const MAX_VERSION := 0xFFFF_FFFF_FFFF_FFFF

  datatype Node<R> = Node(address: Address, superior: Address, resources: R, version: nat) {

    function Incremented(): Node<R> {
      if version < MAX_VERSION then this.(version := version + 1) else this
    }
  }

  type Table<R> = map<Address, Node<R>>

  datatype View<R(==)> = View(me: Node<R>, nodes: Table<R>) {

    ghost predicate Valid() {
      && me.address != NOWHERE && me.address !in nodes
      && forall k <- nodes :: k != NOWHERE && nodes[k].address == k
    }

    /** The version of the record of a node, or -1 for a node that is not known. */
    function VersionOf(k: Address): int {
      if k in nodes then nodes[k].version else -1
    }

    function Learn(a: Node<R>): View<R> {
      if a.address == me.address || a.version <= VersionOf(a.address) then this
      else this.(nodes := nodes[a.address := a])
    }

    function Merged(list: seq<Node<R>>): View<R> {
      if list == [] then this else Merged(list[..|list| - 1]).Learn(list[|list| - 1])
    }

    function WithSuperior(a: Address): View<R> {
      if me.superior == a then this else this.(me := me.(superior := a).Incremented())
    }

    function WithSubordinate(a: Address, blank: Node<R>): View<R> {
      var b := if a in nodes then nodes[a] else blank;
      this.(nodes := nodes[a := b.(superior := me.address)])
    }

    function Without(a: Address): View<R> {
      View(if me.superior == a then me.(superior := NOWHERE) else me,
           if a in nodes && nodes[a].superior == me.address then nodes[a := nodes[a].(superior := NOWHERE)] else nodes)
    }

    /** Whether the removal of a node is reported as a change. */
    predicate ReportsRemoval(a: Address) {
      a in nodes && (me.superior == a || nodes[a].superior == me.address)
    }

    function WithResources(r: R): View<R> {
      if me.resources == r then this else this.(me := me.(resources := r).Incremented())
    }
  }

  /** Merging keeps, of every other node, the record with the highest version, and the one that is
      held already in case of a tie. */
  lemma {:induction false} MergedIsLatest<R>(v: View<R>, list: seq<Node<R>>, k: Address)
    ensures var w := v.Merged(list);
            && (v.Valid() && (forall a <- list :: a.address != NOWHERE) ==> w.Valid())
            && w.me == v.me && v.VersionOf(k) <= w.VersionOf(k)
            && (forall a <- list :: a.address == k && k != v.me.address ==> a.version <= w.VersionOf(k))
            && (if w.VersionOf(k) == v.VersionOf(k) then k in v.nodes ==> w.nodes[k] == v.nodes[k]
                else w.nodes[k] in list && w.nodes[k].address == k)
  {
    if list != [] {
      var n := |list| - 1;
      MergedIsLatest(v, list[..n], k);
      var u := v.Merged(list[..n]);
      assert v.Merged(list) == u.Learn(list[n]);
      assert list == list[..n] + [list[n]];
    }
  }

  /** A list changes the table exactly if it has a newer record of another node. */
  lemma MergeChanges<R>(v: View<R>, list: seq<Node<R>>)
    ensures v.Merged(list) != v <==> exists a <- list :: a.address != v.me.address && v.VersionOf(a.address) < a.version
  {
    var w := v.Merged(list);
    MergedIsLatest(v, list, 0);
    if exists a <- list :: a.address != v.me.address && v.VersionOf(a.address) < a.version {
      var a :| a in list && a.address != v.me.address && v.VersionOf(a.address) < a.version;
      MergedIsLatest(v, list, a.address);
    } else {
      forall k ensures w.VersionOf(k) == v.VersionOf(k) && (k in v.nodes ==> w.nodes[k] == v.nodes[k]) {
        MergedIsLatest(v, list, k);
      }
      assert w.nodes.Keys == v.nodes.Keys by {
        forall k ensures k in w.nodes <==> k in v.nodes { assert w.VersionOf(k) == v.VersionOf(k); }
      }
      assert w.nodes == v.nodes;
    }
  }

  lemma {:induction false} MergedTwice<R>(v: View<R>, one: seq<Node<R>>, two: seq<Node<R>>)
    ensures v.Merged(one).Merged(two) == v.Merged(one + two)
  {
    if two == [] {
      assert one + two == one;
    } else {
      var n := |two| - 1;
      MergedTwice(v, one, two[..n]);
      assert (one + two)[..|one| + n] == one + two[..n];
    }
  }

  /** Records that agree on the resources whenever they agree on the node and the version. */
  ghost predicate Consistent<R(!new)>(s: set<Node<R>>) {
    forall a <- s, b <- s :: a.address == b.address && a.version == b.version ==> a.resources == b.resources
  }

  /** Lists of the same records, in whatever order and however often each, lead to the same nodes,
      versions and resources. */
  lemma MergeOrder<R(!new)>(v: View<R>, one: seq<Node<R>>, two: seq<Node<R>>, k: Address)
    requires forall a :: a in one <==> a in two
    requires forall k <- v.nodes :: v.nodes[k].address == k
    requires Consistent(v.nodes.Values + set a <- one)
    ensures var w, x := v.Merged(one), v.Merged(two);
            && (k in w.nodes <==> k in x.nodes)
            && (k in w.nodes ==>
                  w.nodes[k].version == x.nodes[k].version && w.nodes[k].resources == x.nodes[k].resources)
  {
    MergedIsLatest(v, one, k);
    MergedIsLatest(v, two, k);
    var w, x := v.Merged(one), v.Merged(two);
    assert w.VersionOf(k) == x.VersionOf(k) by { MergeReaches(v, one, two, k); MergeReaches(v, two, one, k); }
    if k in w.nodes {
      var s := v.nodes.Values + set a <- one;
      assert w.nodes[k] in s && x.nodes[k] in s;
    }
  }

  lemma MergeReaches<R>(v: View<R>, one: seq<Node<R>>, two: seq<Node<R>>, k: Address)
    requires forall a <- one :: a in two
    ensures v.Merged(one).VersionOf(k) <= v.Merged(two).VersionOf(k)
  {
    MergedIsLatest(v, one, k);
    MergedIsLatest(v, two, k);
    var w := v.Merged(one);
    if w.VersionOf(k) != v.VersionOf(k) {
      assert w.nodes[k] in two;
    }
  }

  // ---------------------------------------------------------------------------
  // Walks along the superiors.

  /** The node that is `i` superiors above `x`. */
  ghost function Climb<R>(m: Table<R>, x: Address, i: nat): Address {
    if i == 0 then x
    else
      var y := Climb(m, x, i - 1);
      if y in m then m[y].superior else NOWHERE
  }

  ghost predicate Acyclic<R>(m: Table<R>) {
    forall x: Address, i: nat | x in m && 0 < i :: Climb(m, x, i) != x
  }

  lemma {:induction false} ClimbTwice<R>(m: Table<R>, x: Address, i: nat, j: nat)
    ensures Climb(m, x, i + j) == Climb(m, Climb(m, x, i), j)
    decreases j
  {
    if 0 < j { ClimbTwice(m, x, i, j - 1); }
  }

  lemma ClimbFrom<R>(m: Table<R>, x: Address, i: nat)
    requires 0 < i
    ensures Climb(m, x, i) == Climb(m, if x in m then m[x].superior else NOWHERE, i - 1)
  {
    assert Climb(m, x, 1) == if x in m then m[x].superior else NOWHERE by { assert Climb(m, x, 0) == x; }
    ClimbTwice(m, x, 1, i - 1);
  }

  lemma {:induction false} ClimbOut<R>(m: Table<R>, x: Address, i: nat)
    requires x !in m && NOWHERE !in m && 0 < i
    ensures Climb(m, x, i) == NOWHERE
  {
    assert Climb(m, x, 0) == x;
    if 1 < i { ClimbOut(m, x, i - 1); }
  }

  /** Superiors with lower addresses never lead back. */
  lemma LowerIsAcyclic<R>(m: Table<R>)
    requires NOWHERE !in m && forall k <- m :: m[k].superior == NOWHERE || m[k].superior < k
    ensures Acyclic(m)
  {
    forall x: Address, i: nat | x in m && 0 < i ensures Climb(m, x, i) != x { ClimbLower(m, x, i); }
  }

  lemma {:induction false} ClimbLower<R>(m: Table<R>, x: Address, i: nat)
    requires NOWHERE !in m && forall k <- m :: m[k].superior == NOWHERE || m[k].superior < k
    requires x in m && 0 < i
    ensures Climb(m, x, i) < x
  {
    assert Climb(m, x, 0) == x;
    if 1 < i { ClimbLower(m, x, i - 1); }
  }

  /** The nodes from which `from` is exactly `i` superiors away. */
  ghost function Level<R>(m: Table<R>, from: Address, i: nat): set<Address> {
    if i == 0 then {from} else set k | k in m && Climb(m, k, i) == from
  }

  /** The node itself and the nodes at most `d` steps below it. */
  ghost function Lower<R>(m: Table<R>, from: Address, d: int): set<Address> {
    {from} + set k | k in m && (exists i: nat :: 1 <= i <= d && Climb(m, k, i) == from)
  }

  /** The node itself and everything below it, however far. */
  ghost function Below<R>(m: Table<R>, from: Address): set<Address> {
    {from} + set k | k in m && (exists i: nat :: 0 < i && Climb(m, k, i) == from)
  }

  ghost function Addresses<R>(s: seq<Node<R>>): set<Address> {
    set p | 0 <= p < |s| :: s[p].address
  }

  ghost predicate Distinct<R>(s: seq<Node<R>>) {
    forall p, q :: 0 <= p < q < |s| ==> s[p].address != s[q].address
  }

  lemma AddressesOfSum<R>(s: seq<Node<R>>, t: seq<Node<R>>)
    ensures Addresses(s + t) == Addresses(s) + Addresses(t)
    ensures Distinct(s + t) <==> Distinct(s) && Distinct(t) && Addresses(s) !! Addresses(t)
  {
    var u := s + t;
    forall x | x in Addresses(s) ensures x in Addresses(u) {
      var p :| 0 <= p < |s| && s[p].address == x;
      assert u[p].address == x;
    }
    forall x | x in Addresses(t) ensures x in Addresses(u) {
      var p :| 0 <= p < |t| && t[p].address == x;
      assert u[|s| + p].address == x;
    }
    if Distinct(u) {
      assert Distinct(s) by {
        forall p, q | 0 <= p < q < |s| ensures s[p].address != s[q].address {
          assert u[p] == s[p] && u[q] == s[q];
        }
      }
      assert Distinct(t) by {
        forall p, q | 0 <= p < q < |t| ensures t[p].address != t[q].address {
          assert u[|s| + p] == t[p] && u[|s| + q] == t[q];
        }
      }
      forall p, q | 0 <= p < |s| && 0 <= q < |t| ensures s[p].address != t[q].address {
        assert u[p].address != u[|s| + q].address;
      }
    }
    if Distinct(s) && Distinct(t) && Addresses(s) !! Addresses(t) {
      forall p, q | 0 <= p < q < |u| ensures u[p].address != u[q].address {
        if p < |s| <= q {
          assert u[p].address in Addresses(s) && t[q - |s|].address in Addresses(t);
        }
      }
    }
  }

  // ---------------------------------------------------------------------------
  // Level after level, downwards.

  lemma LevelNext<R>(m: Table<R>, from: Address, i: nat)
    requires NOWHERE !in m && from != NOWHERE
    ensures Level(m, from, i + 1) == set k | k in m && m[k].superior in Level(m, from, i)
  {
    forall k | k in m ensures Climb(m, k, i + 1) == from <==> m[k].superior in Level(m, from, i) {
      ClimbFrom(m, k, i + 1);
      if 0 < i && m[k].superior !in m { ClimbOut(m, m[k].superior, i); }
    }
  }

  lemma LevelsDisjoint<R>(m: Table<R>, from: Address, i: nat, j: nat)
    requires NOWHERE !in m && from != NOWHERE && Acyclic(m) && i < j
    ensures Level(m, from, i) !! Level(m, from, j)
  {
    forall k | k in Level(m, from, i) && k in Level(m, from, j) ensures false {
      ClimbTwice(m, k, i, j - i);
      if from !in m { ClimbOut(m, from, j - i); }
    }
  }

  /** One more level is one more step downwards, and it is new. */
  lemma LowerNext<R>(m: Table<R>, from: Address, d: nat)
    requires NOWHERE !in m && from != NOWHERE && Acyclic(m)
    ensures Lower(m, from, d + 1) == Lower(m, from, d) + Level(m, from, d + 1)
    ensures Lower(m, from, d) !! Level(m, from, d + 1)
  {
    LevelsDisjoint(m, from, 0, d + 1);
    forall k | k in Lower(m, from, d) ensures k !in Level(m, from, d + 1) {
      if k != from {
        var i: nat :| 1 <= i <= d && Climb(m, k, i) == from;
        LevelsDisjoint(m, from, i, d + 1);
      }
    }
  }

  /** Below an empty level there is nothing. */
  lemma {:induction false} LowerEnds<R>(m: Table<R>, from: Address, i: nat, d: int)
    requires NOWHERE !in m && from != NOWHERE && Acyclic(m)
    requires Level(m, from, i) == {} && i <= d
    ensures Level(m, from, d) == {} && Lower(m, from, d) == Lower(m, from, i)
    decreases d
  {
    if i < d {
      LowerEnds(m, from, i, d - 1);
      LevelNext(m, from, d - 1);
      LowerNext(m, from, d - 1);
    }
  }

  lemma LowerWithin<R>(m: Table<R>, from: Address, d: int)
    ensures Lower(m, from, d) <= m.Keys + {from}
    ensures d <= 0 ==> Lower(m, from, d) == {from}
  {
  }

  // ---------------------------------------------------------------------------
  // Upwards.

  /** The superior of `a`, the superior of that one, and so on, at most `d` of them. */
  ghost function Ancestors<R>(m: Table<R>, a: Node<R>, d: int): seq<Node<R>>
    decreases d
  {
    if d <= 0 || a.superior !in m then [] else [m[a.superior]] + Ancestors(m, m[a.superior], d - 1)
  }

  /** On the way up no node is met that has been seen. */
  ghost predicate FreshUp<R>(m: Table<R>, seen: set<Address>, a: Node<R>, d: int)
    decreases d
  {
    0 < d && a.superior in m ==>
      a.superior !in seen && FreshUp(m, seen + {a.superior}, m[a.superior], d - 1)
  }

  lemma {:induction false} ClimbInPart<R>(m: Table<R>, part: Table<R>, x: Address, i: nat)
    requires NOWHERE !in m && forall k <- part :: k in m && part[k] == m[k]
    requires Climb(part, x, i) != NOWHERE
    ensures Climb(m, x, i) == Climb(part, x, i)
  {
    if 0 < i { ClimbInPart(m, part, x, i - 1); }
  }

  lemma PartIsAcyclic<R>(m: Table<R>, part: Table<R>)
    requires NOWHERE !in m && Acyclic(m) && forall k <- part :: k in m && part[k] == m[k]
    ensures Acyclic(part)
  {
    forall x: Address, i: nat | x in part && 0 < i ensures Climb(part, x, i) != x {
      if Climb(part, x, i) == x { ClimbInPart(m, part, x, i); }
    }
  }

  lemma {:induction false} AcyclicIsFresh<R>(m: Table<R>, part: Table<R>, x: Address, i: nat,
                                             seen: set<Address>, d: int)
    requires NOWHERE !in m && Acyclic(m) && forall k <- part :: k in m && part[k] == m[k]
    requires Climb(m, x, i) in m
    requires forall j: nat | i < j && Climb(m, x, j) in m :: Climb(m, x, j) !in seen
    ensures FreshUp(part, seen, m[Climb(m, x, i)], d)
    decreases d
  {
    var a := m[Climb(m, x, i)];
    if 0 < d && a.superior in part {
      assert Climb(m, x, i + 1) == a.superior;
      forall j: nat | i + 1 < j && Climb(m, x, j) in m ensures Climb(m, x, j) !in seen + {a.superior} {
        ClimbTwice(m, x, i + 1, j - (i + 1));
      }
      AcyclicIsFresh(m, part, x, i + 1, seen + {a.superior}, d - 1);
    }
  }

  /** The nodes below a node are not above it. */
  lemma LowerIsNotUpper<R>(m: Table<R>, part: Table<R>, x: Address, r: int, d: int)
    requires NOWHERE !in m && Acyclic(m) && forall k <- part :: k in m && part[k] == m[k]
    requires x in m
    ensures FreshUp(part, Lower(part, x, r), m[x], d)
  {
    assert Climb(m, x, 0) == x;
    forall j: nat | 0 < j && Climb(m, x, j) in m ensures Climb(m, x, j) !in Lower(part, x, r) {
      var k := Climb(m, x, j);
      if k in Lower(part, x, r) && k != x {
        var i: nat :| 1 <= i <= r && Climb(part, k, i) == x;
        ClimbInPart(m, part, k, i);
        ClimbTwice(m, x, j, i);
      }
    }
    AcyclicIsFresh(m, part, x, 0, Lower(part, x, r), d);
  }

  /** A list of the node itself, of everything at most `radius` steps below it, and of its
      ancestors up to `radius` steps above it. */
  ghost predicate Report<R>(v: View<R>, radius: int, r: seq<Node<R>>) {
    var up := Ancestors(v.nodes, v.me, radius);
    var n := |r| - |up|;
    && 1 <= n && r[0] == v.me && r[n..] == up && Distinct(r)
    && Addresses(r[..n]) == Lower(v.nodes, v.me.address, radius)
    && forall p :: 1 <= p < n ==> r[p].address in v.nodes && r[p] == v.nodes[r[p].address]
  }

  ghost predicate Known<R>(m: Table<R>, s: seq<Node<R>>) {
    forall x <- s :: x.address in m && x == m[x.address]
  }

  /** The records in `found` are those of the subordinates of `a` among the nodes `keys`. */
  ghost predicate Found<R>(m: Table<R>, found: seq<Node<R>>, a: Address, keys: set<Address>) {
    && Distinct(found) && Known(m, found)
    && Addresses(found) == set k | k in m && k in keys && m[k].superior == a
  }

  lemma FindOne<R>(m: Table<R>, found: seq<Node<R>>, a: Address, keys: set<Address>, k: Address)
    requires Found(m, found, a, keys) && k in m && k !in keys && m[k].address == k
    ensures if m[k].superior == a then Found(m, found + [m[k]], a, keys + {k}) else Found(m, found, a, keys + {k})
  {
    AddressesOfSum(found, [m[k]]);
    assert Addresses([m[k]]) == {k} by { assert [m[k]][0] == m[k]; }
  }

  /** After `i` rounds downwards: all that is at most `i` steps below, the last level from `j0` on. */
  ghost predicate Descended<R>(m: Table<R>, from: Node<R>, i: nat, j0: nat, r: seq<Node<R>>) {
    && j0 <= |r| && 0 < |r| && r[0] == from && Known(m, r[1..]) && Distinct(r)
    && Addresses(r) == Lower(m, from.address, i) && Addresses(r[j0..]) == Level(m, from.address, i)
  }

  /** The subordinates of the nodes in `r` from `j0` to `j`. */
  ghost predicate Gathered<R>(m: Table<R>, r: seq<Node<R>>, j0: nat, j: nat, news: seq<Node<R>>)
    requires j0 <= j <= |r|
  {
    && Distinct(news) && Known(m, news)
    && Addresses(news) == set k | k in m && m[k].superior in Addresses(r[j0..j])
  }

  lemma DescendedStart<R>(m: Table<R>, from: Node<R>)
    ensures Descended(m, from, 0, 0, [from])
  {
    assert Addresses([from]) == {from.address} by { assert [from][0] == from; }
  }

  lemma GatherNone<R>(m: Table<R>, from: Node<R>, i: nat, j0: nat, r: seq<Node<R>>)
    requires Descended(m, from, i, j0, r)
    ensures j0 <= |r| && Distinct(r) && Gathered(m, r, j0, j0, [])
  {
  }

  lemma DescendedToEnd<R>(m: Table<R>, from: Node<R>, i: nat, j0: nat, r: seq<Node<R>>, radius: int)
    requires NOWHERE !in m && from.address != NOWHERE && Acyclic(m)
    requires Descended(m, from, i, j0, r) && (i == 0 || i <= radius) && (radius <= i || |r| <= j0)
    ensures 0 < |r| && r[0] == from && Known(m, r[1..]) && Distinct(r) && Addresses(r) == Lower(m, from.address, radius)
  {
    if i < radius {
      LowerEnds(m, from.address, i, radius);
    } else {
      LowerWithin(m, from.address, radius);
      LowerWithin(m, from.address, i);
    }
  }

  lemma GatherOne<R>(m: Table<R>, r: seq<Node<R>>, j0: nat, j: nat, news: seq<Node<R>>, found: seq<Node<R>>)
    requires j0 <= j < |r| && Distinct(r) && Gathered(m, r, j0, j, news) && Found(m, found, r[j].address, m.Keys)
    ensures Gathered(m, r, j0, j + 1, news + found)
  {
    AddressesOfSum(news, found);
    AddressesOfSum(r[j0..j], [r[j]]);
    assert r[j0..j + 1] == r[j0..j] + [r[j]];
    assert Addresses([r[j]]) == {r[j].address} by { assert [r[j]][0] == r[j]; }
    assert r[j].address !in Addresses(r[j0..j]) by {
      forall p | 0 <= p < j - j0 ensures r[j0..j][p].address != r[j].address { assert r[j0..j][p] == r[j0 + p]; }
    }
  }

  /** The number of nodes of the table that are not in the list yet. */
  ghost function Unlisted<R>(m: Table<R>, r: seq<Node<R>>): nat {
    |m.Keys - Addresses(r)|
  }

  lemma FewerUnlisted<R>(m: Table<R>, r: seq<Node<R>>, news: seq<Node<R>>)
    requires Distinct(r + news) && Known(m, news)
    ensures Unlisted(m, r + news) <= Unlisted(m, r)
    ensures news != [] ==> Unlisted(m, r + news) < Unlisted(m, r)
  {
    AddressesOfSum(r, news);
    SmallerSet(m.Keys - Addresses(r + news), m.Keys - Addresses(r));
    if news != [] {
      assert news[0].address in Addresses(news);
    }
  }

  lemma {:induction false} SmallerSet<T>(a: set<T>, b: set<T>)
    requires a <= b
    ensures |a| <= |b| && (a != b ==> |a| < |b|)
  {
    if a != {} {
      var x :| x in a;
      SmallerSet(a - {x}, b - {x});
    }
  }

  lemma RoundDone<R>(m: Table<R>, from: Node<R>, i: nat, j0: nat, r: seq<Node<R>>, news: seq<Node<R>>)
    requires NOWHERE !in m && from.address != NOWHERE && Acyclic(m)
    requires Descended(m, from, i, j0, r) && Gathered(m, r, j0, |r|, news)
    ensures Descended(m, from, i + 1, |r|, r + news)
  {
    LevelNext(m, from.address, i);
    LowerNext(m, from.address, i);
    AddressesOfSum(r, news);
    assert r[j0..|r|] == r[j0..];
    assert (r + news)[|r|..] == news && (r + news)[1..] == r[1..] + news;
  }

  lemma NextRound<R>(m: Table<R>, from: Node<R>, i: nat, j0: nat, r: seq<Node<R>>, news: seq<Node<R>>,
                     k: nat, s: seq<Node<R>>)
    requires NOWHERE !in m && from.address != NOWHERE && Acyclic(m)
    requires Descended(m, from, i, j0, r) && Gathered(m, r, j0, |r|, news) && k == i + 1 && s == r + news
    ensures Descended(m, from, k, |r|, s) && Unlisted(m, s) <= Unlisted(m, r)
    ensures news != [] ==> Unlisted(m, s) < Unlisted(m, r)
  {
    hide Unlisted, Distinct, Known, Addresses, Level, Lower;
    RoundDone(m, from, i, j0, r, news);
    FewerUnlisted(m, r, news);
  }

  /** Every superior of a listed node is listed, apart from the superior of `cur`. */
  ghost predicate Settled<R>(m: Table<R>, r: seq<Node<R>>, cur: Node<R>) {
    forall x <- r :: x.superior in m ==> x.superior == cur.superior || x.superior in Addresses(r)
  }

  lemma SuperiorIsListed<R>(m: Table<R>, r: seq<Node<R>>, cur: Node<R>)
    requires cur.superior in m && m[cur.superior].address == cur.superior
    ensures Addresses(r + [m[cur.superior]]) == Addresses(r) + {cur.superior}
  {
    AddressesOfSum(r, [m[cur.superior]]);
    assert [m[cur.superior]][0].address == cur.superior;
  }

  /** Between two rounds upwards: `cur` is the topmost node so far. */
  ghost predicate Ascending<R>(m: Table<R>, goal: seq<Node<R>>, r: seq<Node<R>>, cur: Node<R>, left: int) {
    Settled(m, r, cur) && FreshUp(m, Addresses(r), cur, left) && goal == r + Ancestors(m, cur, left)
  }

  lemma AscendOne<R>(m: Table<R>, goal: seq<Node<R>>, r: seq<Node<R>>, cur: Node<R>, left: int,
                     next: Node<R>, rest: int)
    requires Ascending(m, goal, r, cur, left) && 0 < left && cur.superior in m && rest == left - 1
    requires next == m[cur.superior] && next.address == cur.superior
    ensures Ascending(m, goal, r + [next], next, rest) && Unlisted(m, r + [next]) < Unlisted(m, r)
  {
    hide Addresses;
    SuperiorIsListed(m, r, cur);
    assert (r + [next]) + Ancestors(m, next, rest) == r + Ancestors(m, cur, left);
    SmallerSet(m.Keys - Addresses(r + [next]), m.Keys - Addresses(r));
  }

  /** The ancestors are the nodes that the superiors lead to, one after the other. */
  lemma {:induction false} AncestorsClimb<R>(m: Table<R>, all: Table<R>, x: Address, c: nat, d: int, i: nat)
    requires forall k <- m :: k in all && all[k] == m[k] && m[k].address == k
    requires Climb(all, x, c) in all && i < |Ancestors(m, all[Climb(all, x, c)], d)|
    ensures Ancestors(m, all[Climb(all, x, c)], d)[i].address == Climb(all, x, c + 1 + i)
    decreases i
  {
    assert Climb(all, x, c + 1) == all[Climb(all, x, c)].superior;
    if 0 < i { AncestorsClimb(m, all, x, c + 1, d - 1, i - 1); }
  }

  /** The ancestors are distinct and were not seen before. */
  lemma {:induction false} FreshIsDistinct<R>(m: Table<R>, seen: set<Address>, a: Node<R>, d: int)
    requires FreshUp(m, seen, a, d) && forall k <- m :: m[k].address == k
    ensures var up := Ancestors(m, a, d); Distinct(up) && Addresses(up) !! seen
    decreases d
  {
    if 0 < d && a.superior in m {
      var next := m[a.superior];
      FreshIsDistinct(m, seen + {a.superior}, next, d - 1);
      AddressesOfSum([next], Ancestors(m, next, d - 1));
      assert Addresses([next]) == {next.address} by { assert [next][0] == next; }
    }
  }

  lemma LowerIsSettled<R>(v: View<R>, radius: int, r: seq<Node<R>>)
    requires v.Valid() && 0 < |r| && r[0] == v.me && Known(v.nodes, r[1..])
    requires Addresses(r) == Lower(v.nodes, v.me.address, radius)
    ensures Addresses(r + [v.me]) == Addresses(r) && Settled(v.nodes, r + [v.me], v.me)
  {
    AddressesOfSum(r, [v.me]);
    assert Addresses([v.me]) == {v.me.address} by { assert [v.me][0] == v.me; }
    forall p | 0 <= p < |r| && r[p].superior in v.nodes
      ensures r[p].superior == v.me.superior || r[p].superior in Addresses(r)
    {
      if 0 < p {
        var x := r[1..][p - 1];
        assert x.address in Addresses(r);
        var i: nat :| 1 <= i <= radius && Climb(v.nodes, x.address, i) == v.me.address;
        ClimbFrom(v.nodes, x.address, i);
        assert Climb(v.nodes, x.superior, 0) == x.superior;
      }
    }
  }

  /** No chain of superiors is longer than the table. */
  lemma {:induction false} LevelsFill<R>(m: Table<R>, from: Address, i: nat)
    requires NOWHERE !in m && from != NOWHERE && Acyclic(m) && Level(m, from, i) != {}
    ensures i + 1 <= |Lower(m, from, i)|
  {
    if i == 0 {
      LowerWithin(m, from, 0);
    } else {
      var h := i - 1;
      LevelNext(m, from, h);
      assert Level(m, from, i) == Level(m, from, h + 1) && Lower(m, from, i) == Lower(m, from, h + 1);
      hide Lower, Level, Climb, Acyclic;
      LevelsFill(m, from, h);
      LowerNext(m, from, h);
      SmallerSet(Lower(m, from, h), Lower(m, from, i));
    }
  }

  /** With as many steps as there are nodes, nobody below is left out. */
  lemma LowerIsComplete<R>(m: Table<R>, from: Address, d: int)
    requires NOWHERE !in m && from != NOWHERE && Acyclic(m) && |m| <= d
    ensures Lower(m, from, d) == Below(m, from)
  {
    forall k | k in Below(m, from) && k != from ensures k in Lower(m, from, d) {
      var i: nat :| 0 < i && Climb(m, k, i) == from;
      assert k in Level(m, from, i);
      ChainIsShort(m, from, i);
    }
  }

  lemma ChainIsShort<R>(m: Table<R>, from: Address, i: nat)
    requires NOWHERE !in m && from != NOWHERE && Acyclic(m) && Level(m, from, i) != {}
    ensures i <= |m|
  {
    hide Lower, Level, Climb, Acyclic;
    LevelsFill(m, from, i);
    LowerWithin(m, from, i);
    SmallerSet(Lower(m, from, i), m.Keys + {from});
    KeysAndOne(m.Keys, from);
  }

  lemma KeysAndOne(keys: set<Address>, from: Address)
    ensures |keys + {from}| <= |keys| + 1
  {
    if from in keys { assert keys + {from} == keys; }
  }

  const MAX_INT := 0x7FFF_FFFF

  class Hierarchy<R(==)> {
    var me: Node<R>
    var nodes: Table<R>
    const blank: Node<R>

    ghost function Value(): View<R>
      reads this
    {
      View(me, nodes)
    }

    constructor (address: Address, resources: R)
      requires address != NOWHERE
      ensures Value() == View(Node(address, NOWHERE, resources, 0), map[]) && Value().Valid()
      ensures blank == Node(NOWHERE, NOWHERE, resources, 0)
    {
      me, nodes := Node(address, NOWHERE, resources, 0), map[];
      blank := Node(NOWHERE, NOWHERE, resources, 0);
    }

    method AddNodes(list: seq<Node<R>>) returns (updated: bool)
      modifies this`nodes
      ensures Value() == old(Value()).Merged(list)
      ensures updated <==> Value() != old(Value())
    {
      updated := false;
      for i := 0 to |list|
        invariant Value() == old(Value()).Merged(list[..i])
        invariant updated <==> Value() != old(Value())
      {
        var a := list[i];
        ghost var before := Value();
        assert list[..i + 1][..i] == list[..i];
        StillNewer(old(Value()), list[..i], a);
        if a.address == me.address { continue; }
        if a.address !in nodes {
          nodes := nodes[a.address := a];
          updated := true;
        } else {
          var b := nodes[a.address];
          if b.version < a.version {
            nodes := nodes[a.address := a];
            updated := true;
          }
        }
      }
      assert list[..|list|] == list;
    }

    method AddSuperior(node: Node<R>) returns (updated: bool)
      modifies this`me
      ensures Value() == old(Value()).WithSuperior(node.address)
      ensures updated <==> old(me.superior) != node.address
    {
      updated := false;
      if me.superior != node.address {
        me := me.(superior := node.address);
        me := me.Incremented();
        updated := true;
      }
    }

    method AddSubordinate(node: Node<R>) returns (updated: bool)
      modifies this`nodes
      ensures Value() == old(Value()).WithSubordinate(node.address, blank)
      ensures updated <==>
                (if node.address in old(nodes) then old(nodes)[node.address] else blank).superior != me.address
    {
      if node.address !in nodes { nodes := nodes[node.address := blank]; }
      var b := nodes[node.address];
      updated := false;
      if b.superior != me.address {
        nodes := nodes[node.address := b.(superior := me.address)];
        updated := true;
      }
    }

    method RemoveNode(a: Address) returns (updated: bool)
      modifies this`me, this`nodes
      ensures Value() == old(Value()).Without(a)
      ensures updated <==> old(Value()).ReportsRemoval(a)
    {
      updated := false;
      if me.superior == a {
        me := me.(superior := NOWHERE);
        updated := true;
      }
      if a !in nodes { return false; }
      var b := nodes[a];
      if b.superior == me.address {
        nodes := nodes[a := b.(superior := NOWHERE)];
        updated := true;
      }
    }

    method SetResources(r: R) returns (updated: bool)
      modifies this`me
      ensures Value() == old(Value()).WithResources(r)
      ensures updated <==> old(me.resources) != r
    {
      if me.resources != r {
        me := me.(resources := r);
        me := me.Incremented();
        return true;
      }
      return false;
    }

    /** The part of the walk downwards that looks for the subordinates of one node. */
    method ScanDown(result: seq<Node<R>>, a: Node<R>)
      returns (r: seq<Node<R>>, added: bool, ghost found: seq<Node<R>>)
      requires Value().Valid()
      ensures r == result + found && (added <==> found != [])
      ensures Found(nodes, found, a.address, nodes.Keys)
    {
      r, added, found := result, false, [];
      var rest := nodes.Keys;
      assert Found(nodes, found, a.address, nodes.Keys - rest);
      hide Found;
      while rest != {}
        invariant rest <= nodes.Keys && r == result + found && (added <==> found != [])
        invariant Found(nodes, found, a.address, nodes.Keys - rest)
        decreases |rest|
      {
        var k :| k in rest;
        var b := nodes[k];
        FindOne(nodes, found, a.address, nodes.Keys - rest, k);
        if b.superior == a.address {
          r, found := r + [b], found + [b];
          added := true;
        }
        assert nodes.Keys - (rest - {k}) == nodes.Keys - rest + {k};
        rest := rest - {k};
      }
      assert nodes.Keys - rest == nodes.Keys;
    }

    method RoundDown(result: seq<Node<R>>, j0: nat)
      returns (r: seq<Node<R>>, added: bool, ghost news: seq<Node<R>>)
      requires Value().Valid() && j0 <= |result| && Distinct(result) && Gathered(nodes, result, j0, j0, [])
      ensures r == result + news && (added <==> news != []) && Gathered(nodes, result, j0, |result|, news)
    {
      hide Gathered, Found, Distinct;
      r, added, news := result, false, [];
      var j, j1 := j0, |result|;
      while j < j1
        invariant j0 <= j <= j1 && r == result + news && (added <==> news != [])
        invariant Gathered(nodes, result, j0, j, news)
      {
        var more;
        ghost var found;
        r, more, found := ScanDown(r, r[j]);
        GatherOne(nodes, result, j0, j, news, found);
        news := news + found;
        added := added || more;
        j := j + 1;
      }
    }

    /** Appends the nodes below the first one of `result`, level after level, but no more than
        `radius` levels. There is at most one round more than there are nodes. */
    method TraverseDown(from: Node<R>, radius: int) returns (r: seq<Node<R>>)
      requires Value().Valid() && from.address != NOWHERE && Acyclic(nodes)
      ensures 0 < |r| && r[0] == from && Known(nodes, r[1..]) && Distinct(r)
      ensures Addresses(r) == Lower(nodes, from.address, radius)
    {
      ghost var m := nodes;
      assert NOWHERE !in m;
      hide Descended, Gathered, Found, Lower, Level, Unlisted, Distinct, Known, Addresses, Acyclic, Climb, View.Valid;
      r := [from];
      var i, j0, added := 0, 0, true;
      DescendedStart(m, from);
      while i < radius && added
        invariant 0 <= i && 0 <= j0 && Descended(m, from, i, j0, r) && (added <==> j0 < |r|)
        invariant i <= radius || i == 0
        decreases Unlisted(m, r), added
      {
        ghost var r0, news := r, [];
        GatherNone(m, from, i, j0, r0);
        var j1 := |r|;
        r, added, news := RoundDown(r, j0);
        var next := i + 1;
        NextRound(m, from, i, j0, r0, news, next, r);
        j0, i := j1, next;
      }
      DescendedToEnd(m, from, i, j0, r, radius);
    }

    /** The part of the walk upwards that looks for the superior of one node. */
    method ScanUp(result: seq<Node<R>>, a: Node<R>) returns (r: seq<Node<R>>, added: bool)
      requires Value().Valid()
      ensures added <==> a.superior in nodes && a.superior !in Addresses(result)
      ensures r == if added then result + [nodes[a.superior]] else result
    {
      r, added := result, false;
      var rest := nodes.Keys;
      while rest != {}
        invariant rest <= nodes.Keys
        invariant added <==> a.superior in nodes && a.superior !in rest && a.superior !in Addresses(result)
        invariant r == if added then result + [nodes[a.superior]] else result
        decreases |rest|
      {
        var k :| k in rest;
        var b := nodes[k];
        rest := rest - {k};
        if a.superior == b.address && forall p | 0 <= p < |r| :: r[p].address != b.address {
          r := r + [b];
          added := true;
        }
      }
    }

    method RoundUp(result: seq<Node<R>>, j0: nat, ghost cur: Node<R>) returns (r: seq<Node<R>>, added: bool)
      requires Value().Valid() && j0 <= |result| && cur in result[j0..]
      requires Settled(nodes, result, cur) && (cur.superior in nodes ==> cur.superior !in Addresses(result))
      ensures added <==> cur.superior in nodes
      ensures r == if added then result + [nodes[cur.superior]] else result
    {
      hide Addresses;
      r, added := result, false;
      var j, j1 := j0, |result|;
      while j < j1
        invariant j0 <= j <= j1
        invariant added ==> cur.superior in nodes
        invariant r == if added then result + [nodes[cur.superior]] else result
        invariant cur in result[j0..j] && cur.superior in nodes ==> added
      {
        assert result[j0..j + 1] == result[j0..j] + [result[j]];
        assert r[j] == result[j];
        if added {
          SuperiorIsListed(nodes, result, cur);
        }
        var more;
        r, more := ScanUp(r, r[j]);
        added := added || more;
        j := j + 1;
      }
      assert result[j0..j1] == result[j0..];
    }

    /** Appends the superior of the last node of `result`, the superior of that one, and so on,
        although every walk begins anew at the first node of the list. */
    method TraverseUp(result: seq<Node<R>>, ghost a: Node<R>, radius: int) returns (r: seq<Node<R>>)
      requires Value().Valid() && a in result && Settled(nodes, result, a)
      requires FreshUp(nodes, Addresses(result), a, radius)
      ensures r == result + Ancestors(nodes, a, radius)
    {
      r := result;
      ghost var m, goal, cur, left := nodes, result + Ancestors(nodes, a, radius), a, radius;
      var i, j0, added := 0, 0, true;
      while i < radius && added
        invariant 0 <= i && 0 <= j0 <= |r| && Ascending(m, goal, r, cur, left) && left == radius - i
        invariant if added then cur in r[j0..] else cur.superior !in m
        decreases Unlisted(m, r), added
      {
        var j1 := |r|;
        ghost var r0 := r;
        r, added := RoundUp(r, j0, cur);
        if added {
          ghost var next, rest := m[cur.superior], left - 1;
          AscendOne(m, goal, r0, cur, left, next, rest);
          cur := next;
        } else {
          assert Ancestors(m, cur, left) == Ancestors(m, cur, left - 1) == [];
        }
        left := left - 1;
        i := i + 1;
        j0 := j1;
      }
    }

    /** The node itself, what is below it, what is above it: nobody twice. */
    method Nodes(radius: int) returns (r: seq<Node<R>>)
      requires Value().Valid() && Acyclic(nodes[me.address := me])
      ensures Report(Value(), radius, r)
    {
      ghost var all := nodes[me.address := me];
      PartIsAcyclic(all, nodes);
      r := TraverseDown(me, radius);
      ghost var lower := r;
      var oldSize := |r|;
      r := r + [me];
      LowerIsSettled(Value(), radius, lower);
      LowerIsNotUpper(all, nodes, me.address, radius, radius);
      FreshIsDistinct(nodes, Addresses(lower), me, radius);
      r := TraverseUp(r, me, radius);
      r := r[..oldSize] + r[oldSize + 1..];
      ghost var up := Ancestors(nodes, me, radius);
      AddressesOfSum(lower, up);
      assert r == lower + up && r[..oldSize] == lower;
    }

    method LowerNodes(from: Node<R>, depth: int) returns (r: seq<Node<R>>)
      requires Value().Valid() && from.address != NOWHERE && Acyclic(nodes)
      ensures 0 < |r| && r[0] == from && Known(nodes, r[1..]) && Distinct(r)
      ensures Addresses(r) == Lower(nodes, from.address, depth)
    {
      r := TraverseDown(from, depth);
    }

    method UpperNodes(from: Node<R>, depth: int) returns (r: seq<Node<R>>)
      requires Value().Valid() && from.address != NOWHERE && Acyclic(nodes[from.address := from])
      requires from.address in nodes ==> nodes[from.address] == from
      ensures r == [from] + Ancestors(nodes, from, depth) && Distinct(r)
    {
      r := [from];
      assert Addresses(r) == {from.address} by { assert r[0] == from; }
      LowerWithin(nodes, from.address, 0);
      LowerIsNotUpper(nodes[from.address := from], nodes, from.address, 0, depth);
      FreshIsDistinct(nodes, {from.address}, from, depth);
      AddressesOfSum(r, Ancestors(nodes, from, depth));
      r := TraverseUp(r, from, depth);
    }

    /** The nodes that are reached through a neighbour: above the superior the ancestors, otherwise
        everything below. */
    method NodesBehind(from: Address) returns (r: seq<Node<R>>)
      requires Value().Valid() && Acyclic(nodes)
      ensures from !in nodes ==> r == []
      ensures from in nodes ==> 0 < |r| && r[0] == nodes[from] && Distinct(r) && Known(nodes, r)
      ensures from in nodes && from == me.superior ==> r == [nodes[from]] + Ancestors(nodes, nodes[from], MAX_INT)
      ensures from in nodes && from != me.superior && |nodes| <= MAX_INT ==>
                Addresses(r) == Below(nodes, from)
    {
      if from !in nodes { return []; }
      if from == me.superior {
        assert nodes[from := nodes[from]] == nodes;
        r := UpperNodes(nodes[from], MAX_INT);
        AncestorsKnown(nodes, nodes[from], MAX_INT);
      } else {
        r := LowerNodes(nodes[from], MAX_INT);
        assert r == [r[0]] + r[1..];
        if |nodes| <= MAX_INT { LowerIsComplete(nodes, from, MAX_INT); }
      }
    }
  }

  lemma {:induction false} AncestorsKnown<R>(m: Table<R>, a: Node<R>, d: int)
    requires forall k <- m :: m[k].address == k
    ensures Known(m, Ancestors(m, a, d))
    decreases d
  {
    if 0 < d && a.superior in m { AncestorsKnown(m, m[a.superior], d - 1); }
  }

  lemma StillNewer<R>(v: View<R>, list: seq<Node<R>>, a: Node<R>)
    ensures v.Merged(list) != v ==> v.Merged(list).Learn(a) != v
    ensures v.Merged(list).Learn(a) != v.Merged(list)
            <==> a.address != v.me.address && v.Merged(list).VersionOf(a.address) < a.version
  {
    MergedIsLatest(v, list, a.address);
    MergeChanges(v, list);
    MergeChanges(v, list + [a]);
    assert (list + [a])[..|list|] == list;
  }
}
