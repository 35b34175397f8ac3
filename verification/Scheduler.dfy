/** The choice of the neighbour to which a kernel goes. */
module Scheduler {
  import opened Arithmetic
  import opened Weights

  /** Two quotients with their remainders, compared one after the other. */
  datatype Relative = Relative(all: Weight, allRest: Weight, some: Weight, someRest: Weight) {
    predicate Less(r: Relative) {
      if all != r.all then all < r.all
      else if allRest != r.allRest then allRest < r.allRest
      else if some != r.some then some < r.some
      else someRest < r.someRest
    }
  }

  /** A neighbour as the scheduler sees it; `behind` are the resources of the nodes that are reached
      through it. */
  datatype Client<R> = Client(address: nat, started: bool, load: Load, behind: seq<R>, threads: Weight) {
    function RelativeLoad(): Relative {
      var n: Weight := if threads == 0 then 1 else threads;
      Relative(load.all / n, load.all % n, load.some / n, load.some % n)
    }
  }

  datatype Filter<!R> = NoFilter | Filter(accepts: R -> bool)

  /** `source` 0 is the empty address. */
  datatype Kernel<!R> = Kernel(source: nat, carriesParent: bool, weights: Load, filter: Filter<R>)

  predicate Accepts<R>(k: Kernel<R>, c: Client<R>) {
    k.filter.Filter? ==> exists j | 0 <= j < |c.behind| :: k.filter.accepts(c.behind[j])
  }

  /** A started neighbour that has what the kernel needs and did not send it. */
  predicate Candidate<R>(k: Kernel<R>, c: Client<R>) {
    c.started && Accepts(k, c) && c.address != k.source
  }

  ghost predicate IsBest<R>(k: Kernel<R>, cs: seq<Client<R>>, i: int) {
    && 0 <= i < |cs| && Candidate(k, cs[i])
    && forall j | 0 <= j < |cs| && Candidate(k, cs[j]) :: !cs[j].RelativeLoad().Less(cs[i].RelativeLoad())
  }

  lemma LessIsTotal(a: Relative, b: Relative, c: Relative)
    ensures !a.Less(a) && (a.Less(b) && b.Less(c) ==> a.Less(c)) && (a.Less(b) || a == b || b.Less(a))
            && !(a.Less(b) && b.Less(a))
    ensures !b.Less(a) && !c.Less(b) ==> !c.Less(a)
  {
  }

  /** What the scheduler decides: the place of a neighbour, or -1 for this node, and whether the
      kernel is sent back for want of resources. */
  datatype Decision = Decision(client: int, noResources: bool)

  function Threads(n: Weight): (t: nat)
    ensures 1 <= t
  {
    if n == 0 then 1 else n
  }

  /** The neighbour `c` is a choice as good as `d`, as far as plain numbers tell: of two with equally
      many threads it has no greater load, counting first the kernels that need all threads, and of two
      with the same load it has no fewer threads, unless both have more threads than load. For each of
      its threads it has no more of the kernels that need all of them. */
  predicate NoWorse<R>(c: Client<R>, d: Client<R>) {
    var m, n := Threads(c.threads), Threads(d.threads);
    && (m == n ==> c.load.all < d.load.all || (c.load.all == d.load.all && c.load.some <= d.load.some))
    && (c.load == d.load && m < n ==> c.load.all < m && c.load.some < m)
    && c.load.all / m <= d.load.all / n
  }

  /** The neighbour is busier than a node with the given load and as many threads. Kernels that need all
      threads are divided among the threads of the neighbour only. */
  predicate Busier<R>(c: Client<R>, load: Load) {
    var n := Threads(c.threads);
    load.all * n < c.load.all || (load.all * n == c.load.all && load.some < c.load.some)
  }

  /** Quotient and remainder, one after the other, are ordered as the numbers are. */
  lemma QuotientOrder(a: nat, b: nat, n: nat)
    requires 1 <= n
    ensures a < b <==> a / n < b / n || (a / n == b / n && a % n < b % n)
    ensures a == b <==> a / n == b / n && a % n == b % n
  {
    assert a == (a / n) * n + a % n && b == (b / n) * n + b % n;
    if a / n < b / n { MulMono(a / n + 1, b / n, n); }
    if b / n < a / n { MulMono(b / n + 1, a / n, n); }
  }

  /** The more threads, the smaller the quotient, or else the remainder, unless there is no quotient. */
  lemma MoreThreads(a: nat, m: nat, n: nat)
    requires 1 <= m < n
    ensures m <= a ==> a / n < a / m || (a / n == a / m && a % n < a % m)
    ensures a < m ==> a / n == a / m == 0 && a % n == a % m == a
  {
    if a < m {
      DivModUnique(0, a, m);
      DivModUnique(0, a, n);
    } else {
      Division(a, m);
      Division(a, n);
      var p, r, q, t := a / m, a % m, a / n, a % n;
      hide *;
      Divided(a, m, n, p, r, q, t);
    }
  }

  lemma Division(a: nat, n: nat)
    requires 1 <= n
    ensures a == (a / n) * n + a % n && 0 <= a % n < n && 0 <= a / n
  {
  }

  lemma Divided(a: nat, m: nat, n: nat, p: nat, r: nat, q: nat, t: nat)
    requires r < m < n && t < n && m <= a && a == p * m + r && a == q * n + t
    ensures q < p || (q == p && t < r)
  {
    MulMono(m + 1, n, p);
    assert (m + 1) * p == p * m + p && n * p == p * n;
    assert (p + 1) * n == p * n + n;
    if p < q { MulMono(p + 1, q, n); }
  }

  /** What the order of relative loads means for two neighbours. */
  lemma NotLessIsNoWorse<R>(c: Client<R>, d: Client<R>)
    requires !d.RelativeLoad().Less(c.RelativeLoad())
    ensures NoWorse(c, d)
  {
    var m, n := Threads(c.threads), Threads(d.threads);
    if m == n {
      QuotientOrder(c.load.all, d.load.all, n);
      QuotientOrder(c.load.some, d.load.some, n);
    } else if m < n {
      MoreThreads(c.load.all, m, n);
      MoreThreads(c.load.some, m, n);
    }
  }

  ghost predicate AnyStarted<R>(cs: seq<Client<R>>) {
    exists i | 0 <= i < |cs| :: cs[i].started
  }

  /** Some neighbour may take the kernel, and must or is no busier than this node. */
  ghost predicate Wanted<R>(k: Kernel<R>, cs: seq<Client<R>>, mustLeave: bool, here: Relative) {
    exists i | 0 <= i < |cs| :: Candidate(k, cs[i]) && (mustLeave || !here.Less(cs[i].RelativeLoad()))
  }

  /** The right decision, for a node that is as busy as `here` and that accepts the kernel or not. */
  ghost predicate Decided<R>(k: Kernel<R>, cs: seq<Client<R>>, mustLeave: bool, accepts: bool, here: Relative,
                             d: Decision) {
    if !AnyStarted(cs) then d == Decision(-1, false)
    else if Wanted(k, cs, mustLeave, here) then IsBest(k, cs, d.client) && !d.noResources
    else if accepts then d == Decision(-1, false)
    else
      && d.noResources && -1 <= d.client < |cs|
      && (d.client != -1 ==> k.source != 0 && cs[d.client].address == k.source)
      && (d.client == -1 ==> k.source == 0 || forall i | 0 <= i < |cs| :: cs[i].address != k.source)
  }

  ghost function Candidates<R>(k: Kernel<R>, cs: seq<Client<R>>): set<int> {
    set j | 0 <= j < |cs| && Candidate(k, cs[j])
  }

  /** The decision in plain numbers. A neighbour that is chosen is never worse than another candidate.
      Whoever must leave leaves if there is a candidate at all; otherwise, among nodes with equally many
      threads, the kernel stays exactly if every candidate is busier than this node. */
  ghost predicate PlainlyDecided<R>(k: Kernel<R>, cs: seq<Client<R>>, local: bool, resources: R, load: Load,
                                    threads: Weight, d: Decision) {
    var refused := k.filter.Filter? && !k.filter.accepts(resources);
    var candidates := Candidates(k, cs);
    && (d.noResources ==> refused)
    && (d.client != -1 && !d.noResources ==>
          d.client in candidates && forall j <- candidates :: NoWorse(cs[d.client], cs[j]))
    && (!local || k.carriesParent || refused ==> (d.client != -1 && !d.noResources <==> candidates != {}))
    && (local && !k.carriesParent && !refused
        && (forall j <- candidates :: Threads(cs[j].threads) == Threads(threads)) ==>
          (d.client == -1 <==> forall j <- candidates :: Busier(cs[j], load)))
  }

  lemma HereIsLess<R>(c: Client<R>, load: Load, n: Weight)
    requires 1 <= n && Threads(c.threads) == n
    ensures Relative(load.all, 0, load.some / n, load.some % n).Less(c.RelativeLoad()) <==> Busier(c, load)
  {
    DivModUnique(load.all, 0, n);
    MulMono(0, load.all, n);
    QuotientOrder(load.all * n, c.load.all, n);
    QuotientOrder(load.some, c.load.some, n);
  }

  lemma DecidedIsPlain<R>(k: Kernel<R>, cs: seq<Client<R>>, local: bool, resources: R, load: Load, threads: Weight,
                          mustLeave: bool, accepts: bool, here: Relative, d: Decision)
    requires Decided(k, cs, mustLeave, accepts, here, d)
    requires accepts == !(k.filter.Filter? && !k.filter.accepts(resources))
    requires mustLeave == (!local || k.carriesParent || !accepts)
    requires var n: Weight := if threads == 0 then 1 else threads;
             here == Relative(load.all, 0, load.some / n, load.some % n)
    ensures PlainlyDecided(k, cs, local, resources, load, threads, d)
  {
    hide NoWorse, Busier, Client.RelativeLoad, Relative.Less;
    forall j | 0 <= j < |cs| ensures
      && (IsBest(k, cs, d.client) && Candidate(k, cs[j]) ==> NoWorse(cs[d.client], cs[j]))
      && (Threads(cs[j].threads) == Threads(threads) ==> (here.Less(cs[j].RelativeLoad()) <==> Busier(cs[j], load)))
    {
      if IsBest(k, cs, d.client) && Candidate(k, cs[j]) { NotLessIsNoWorse(cs[d.client], cs[j]); }
      if Threads(cs[j].threads) == Threads(threads) {
        HereIsLess(cs[j], load, if threads == 0 then 1 else threads);
      }
    }
    var candidates := Candidates(k, cs);
    if Wanted(k, cs, mustLeave, here) {
      assert d.client in candidates || !AnyStarted(cs);
    } else {
      assert mustLeave ==> candidates == {};
      assert forall j <- candidates :: here.Less(cs[j].RelativeLoad());
    }
  }

  class Scheduler<!R> {
    const local: bool
    var localLoad: Load
    var localResources: R
    var localThreads: Weight

    constructor (local: bool, resources: R, threads: Weight)
      ensures this.local == local && localLoad == Load(0, 0) && localResources == resources && localThreads == threads
    {
      this.local, localLoad, localResources, localThreads := local, Load(0, 0), resources, threads;
    }

    function LocalRelativeLoad(): Relative
      reads this`localLoad, this`localThreads
    {
      var n: Weight := if localThreads == 0 then 1 else localThreads;
      Relative(localLoad.all, 0, localLoad.some / n, localLoad.some % n)
    }

    predicate LocalAccepts(k: Kernel<R>)
      reads this`localResources
    {
      k.filter.Filter? ==> k.filter.accepts(localResources)
    }

    /** A neighbour is taken although it may be busier than this node. */
    predicate MustLeave(k: Kernel<R>)
      reads this`localResources
    {
      !local || k.carriesParent || !LocalAccepts(k)
    }

    method Match(c: Client<R>, f: R -> bool) returns (found: bool)
      ensures found <==> exists j | 0 <= j < |c.behind| :: f(c.behind[j])
    {
      for i := 0 to |c.behind|
        invariant forall j | 0 <= j < i :: !f(c.behind[j])
      {
        if f(c.behind[i]) { return true; }
      }
      return false;
    }

    /** Goes over all neighbours once, in the order of the table. */
    method FindBest(k: Kernel<R>, cs: seq<Client<R>>) returns (result: int)
      ensures result == -1 || IsBest(k, cs, result)
      ensures result != -1 <==> Wanted(k, cs, MustLeave(k), LocalRelativeLoad())
    {
      result := -1;
      for i := 0 to |cs|
        invariant -1 <= result < i
        invariant result != -1 ==>
                    Candidate(k, cs[result]) && (MustLeave(k) || !LocalRelativeLoad().Less(cs[result].RelativeLoad()))
        invariant forall j | 0 <= j < i && Candidate(k, cs[j]) ::
                    if result == -1 then !MustLeave(k) && LocalRelativeLoad().Less(cs[j].RelativeLoad())
                    else !cs[j].RelativeLoad().Less(cs[result].RelativeLoad())
      {
        hide Relative.Less, Client.RelativeLoad, LocalRelativeLoad;
        var c := cs[i];
        if !c.started { continue; }
        if k.filter.Filter? {
          var found := Match(c, k.filter.accepts);
          if !found { continue; }
        }
        if c.address != k.source {
          var load := c.RelativeLoad();
          LessIsTotal(load, load, load);
          if result == -1 {
            if !local || k.carriesParent || !LocalRelativeLoad().Less(load) || !LocalAccepts(k) {
              AllAreWorse(this, k, cs, i);
              result := i;
            }
          } else if load.Less(cs[result].RelativeLoad()) {
            AllAreWorseThan(k, cs, i, cs[result].RelativeLoad());
            if !MustLeave(k) { StillBelow(LocalRelativeLoad(), cs[result].RelativeLoad(), load); }
            result := i;
          }
        }
      }
    }

    /** The neighbour for a kernel that names no file. Without a started neighbour the kernel stays
        here; if this node cannot accept it and no neighbour can take it, it is returned to its parent
        through the neighbour that sent it, or here. The clients are in the order of the table. */
    method Schedule(k: Kernel<R>, cs: seq<Client<R>>) returns (d: Decision)
      modifies this`localLoad
      ensures Decided(k, cs, old(MustLeave(k)), old(LocalAccepts(k)), old(LocalRelativeLoad()), d)
      ensures PlainlyDecided(k, cs, local, localResources, old(localLoad), localThreads, d)
      ensures localLoad == if AnyStarted(cs) && d.client == -1 then old(localLoad).Add(k.weights) else old(localLoad)
    {
      var anyStarted := false;
      for i := 0 to |cs|
        invariant !anyStarted && forall j | 0 <= j < i :: !cs[j].started
      {
        if cs[i].started {
          anyStarted := true;
          break;
        }
      }
      if !anyStarted {
        d := Decision(-1, false);
        DecidedIsPlain(k, cs, local, localResources, localLoad, localThreads, MustLeave(k), LocalAccepts(k),
                       LocalRelativeLoad(), d);
        return;
      }
      var result := FindBest(k, cs);
      var noResources := false;
      if result == -1 {
        if !LocalAccepts(k) {
          if k.source != 0 { result := Find(cs, k.source); }
          noResources := true;
        }
        if result == -1 { localLoad := localLoad.Add(k.weights); }
      }
      d := Decision(result, noResources);
      DecidedIsPlain(k, cs, local, localResources, old(localLoad), localThreads, old(MustLeave(k)), LocalAccepts(k),
                     old(LocalRelativeLoad()), d);
    }

    method Find(cs: seq<Client<R>>, address: nat) returns (i: int)
      ensures -1 <= i < |cs| && (i != -1 ==> cs[i].address == address)
      ensures i == -1 ==> forall j | 0 <= j < |cs| :: cs[j].address != address
    {
      for j := 0 to |cs|
        invariant forall h | 0 <= h < j :: cs[h].address != address
      {
        if cs[j].address == address { return j; }
      }
      return -1;
    }
  }

  ghost predicate Within<R>(cs: seq<Client<R>>, ds: seq<Client<R>>) {
    forall a | 0 <= a < |cs| :: exists b :: 0 <= b < |ds| && ds[b] == cs[a]
  }

  /** Two tables with the same neighbours in any order lead to the same decision: to keep the kernel,
      to give it to a neighbour, which is as busy in both cases, or to send it back, to the same node. */
  lemma TableOrderIsIrrelevant<R>(k: Kernel<R>, cs: seq<Client<R>>, ds: seq<Client<R>>, mustLeave: bool,
                                        accepts: bool, here: Relative, d: Decision, e: Decision)
    requires Within(cs, ds) && Within(ds, cs)
    requires Decided(k, cs, mustLeave, accepts, here, d) && Decided(k, ds, mustLeave, accepts, here, e)
    ensures d.noResources == e.noResources && (d.client == -1 <==> e.client == -1)
    ensures -1 <= d.client < |cs| && -1 <= e.client < |ds|
    ensures d.client != -1 ==>
              if d.noResources then cs[d.client].address == ds[e.client].address
              else cs[d.client].RelativeLoad() == ds[e.client].RelativeLoad()
  {
    hide Within, AnyStarted, Wanted, IsBest, Client.RelativeLoad;
    SameTable(k, cs, ds, mustLeave, here);
    SameTable(k, ds, cs, mustLeave, here);
    if AnyStarted(cs) && Wanted(k, cs, mustLeave, here) { BestAreEqual(k, cs, ds, d.client, e.client); }
  }

  lemma Twin<R>(cs: seq<Client<R>>, ds: seq<Client<R>>, i: int) returns (j: int)
    requires Within(cs, ds) && 0 <= i < |cs|
    ensures 0 <= j < |ds| && ds[j] == cs[i]
  {
    var c := cs[i];
    j :| 0 <= j < |ds| && ds[j] == c;
  }

  lemma BestAreEqual<R>(k: Kernel<R>, cs: seq<Client<R>>, ds: seq<Client<R>>, i: int, j: int)
    requires Within(cs, ds) && Within(ds, cs) && IsBest(k, cs, i) && IsBest(k, ds, j)
    ensures 0 <= i < |cs| && 0 <= j < |ds| && cs[i].RelativeLoad() == ds[j].RelativeLoad()
  {
    hide Within, Client.RelativeLoad, Relative.Less;
    var a := Twin(ds, cs, j);
    var b := Twin(cs, ds, i);
    LessIsTotal(cs[i].RelativeLoad(), ds[j].RelativeLoad(), ds[j].RelativeLoad());
  }

  lemma SameTable<R>(k: Kernel<R>, cs: seq<Client<R>>, ds: seq<Client<R>>, mustLeave: bool, here: Relative)
    requires Within(cs, ds)
    ensures AnyStarted(cs) ==> AnyStarted(ds)
    ensures Wanted(k, cs, mustLeave, here) ==> Wanted(k, ds, mustLeave, here)
    ensures (exists i | 0 <= i < |cs| :: cs[i].address == k.source)
            ==> exists j | 0 <= j < |ds| :: ds[j].address == k.source
  {
    if i :| 0 <= i < |cs| && cs[i].started { var j := Twin(cs, ds, i); }
    if Wanted(k, cs, mustLeave, here) {
      var i :| 0 <= i < |cs| && Candidate(k, cs[i]) && (mustLeave || !here.Less(cs[i].RelativeLoad()));
      var j := Twin(cs, ds, i);
    }
    if i :| 0 <= i < |cs| && cs[i].address == k.source { var j := Twin(cs, ds, i); }
  }

  lemma StillBelow(bound: Relative, old_: Relative, new_: Relative)
    requires !bound.Less(old_) && new_.Less(old_)
    ensures !bound.Less(new_)
  {
    LessIsTotal(bound, new_, old_);
  }

  lemma AllAreWorse<R>(s: Scheduler<R>, k: Kernel<R>, cs: seq<Client<R>>, i: nat)
    requires i < |cs| && (s.MustLeave(k) || !s.LocalRelativeLoad().Less(cs[i].RelativeLoad()))
    requires forall j | 0 <= j < i && Candidate(k, cs[j]) ::
               !s.MustLeave(k) && s.LocalRelativeLoad().Less(cs[j].RelativeLoad())
    ensures forall j | 0 <= j < i && Candidate(k, cs[j]) :: !cs[j].RelativeLoad().Less(cs[i].RelativeLoad())
  {
    hide Relative.Less;
    forall j | 0 <= j < i && Candidate(k, cs[j]) ensures !cs[j].RelativeLoad().Less(cs[i].RelativeLoad()) {
      LessIsTotal(s.LocalRelativeLoad(), cs[j].RelativeLoad(), cs[i].RelativeLoad());
    }
  }

  lemma AllAreWorseThan<R>(k: Kernel<R>, cs: seq<Client<R>>, i: nat, best: Relative)
    requires i < |cs| && cs[i].RelativeLoad().Less(best)
    requires forall j | 0 <= j < i && Candidate(k, cs[j]) :: !cs[j].RelativeLoad().Less(best)
    ensures forall j | 0 <= j < i && Candidate(k, cs[j]) :: !cs[j].RelativeLoad().Less(cs[i].RelativeLoad())
  {
    hide Relative.Less;
    forall j | 0 <= j < i && Candidate(k, cs[j]) ensures !cs[j].RelativeLoad().Less(cs[i].RelativeLoad()) {
      LessIsTotal(cs[j].RelativeLoad(), cs[i].RelativeLoad(), best);
    }
  }
}
