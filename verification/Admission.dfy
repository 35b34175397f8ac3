/** Which of the waiting kernels may run in the processes of their applications. */
module Admission {
  import opened Weights

  /** A kernel of the highest weight needs all threads. */
  datatype Kernel = Kernel(name: nat, native: bool, upstream: bool, app: nat, weight: Weight) {
    function Weights(): Load {
      if weight == MAX then Load(1, 0) else Load(0, weight)
    }

    /** What a connection adds to its load when it writes the kernel. */
    function Booked(): Load {
      if upstream then Weights() else Load(0, 0)
    }
  }

  /** What a pass over a queue admits and what it puts back, in order, and the load afterwards. */
  datatype Pass = Pass(admitted: seq<Kernel>, requeued: seq<Kernel>, load: Load)

  predicate Fits(k: Kernel, load: Load, threads: Weight)
    requires threads != 0
  {
    load.Add(k.Weights()).Used(threads) < threads
  }

  function Passed(ks: seq<Kernel>, load: Load, threads: Weight): Pass
    requires threads != 0
  {
    if ks == [] then Pass([], [], load)
    else
      var k := ks[|ks| - 1];
      var p := Passed(ks[..|ks| - 1], load, threads);
      if Fits(k, p.load, threads) then Pass(p.admitted + [k], p.requeued, p.load.Add(k.Weights()))
      else Pass(p.admitted, p.requeued + [k], p.load)
  }

  /** The kernels of `part` stand in `ks` in the same order. */
  predicate Subsequence(part: seq<Kernel>, ks: seq<Kernel>) {
    if part == [] then true
    else if ks == [] then false
    else
      var n, k := |part| - 1, |ks| - 1;
      Subsequence(part, ks[..k]) || (part[n] == ks[k] && Subsequence(part[..n], ks[..k]))
  }

  lemma {:induction false} SubsequenceOfPrefix(part: seq<Kernel>, ks: seq<Kernel>, k: Kernel)
    requires Subsequence(part, ks)
    ensures Subsequence(part, ks + [k]) && Subsequence(part + [k], ks + [k])
  {
    assert (ks + [k])[..|ks|] == ks && (part + [k])[..|part|] == part;
  }

  function Total(ks: seq<Kernel>, load: Load): Load {
    if ks == [] then load else Total(ks[..|ks| - 1], load).Add(ks[|ks| - 1].Weights())
  }

  /** A pass deals with every kernel once. */
  lemma {:induction false} PassKeepsKernels(ks: seq<Kernel>, load: Load, threads: Weight)
    requires threads != 0
    ensures multiset(Passed(ks, load, threads).admitted) + multiset(Passed(ks, load, threads).requeued) == multiset(ks)
  {
    if ks != [] {
      var n := |ks| - 1;
      PassKeepsKernels(ks[..n], load, threads);
      hide Fits;
      assert ks == ks[..n] + [ks[n]];
    }
  }

  /** A pass keeps the order of both groups. */
  lemma {:induction false} PassKeepsOrder(ks: seq<Kernel>, load: Load, threads: Weight)
    requires threads != 0
    ensures Subsequence(Passed(ks, load, threads).admitted, ks) && Subsequence(Passed(ks, load, threads).requeued, ks)
  {
    if ks != [] {
      var n := |ks| - 1;
      var p := Passed(ks[..n], load, threads);
      PassKeepsOrder(ks[..n], load, threads);
      hide Fits, Subsequence;
      assert ks == ks[..n] + [ks[n]];
      SubsequenceOfPrefix(p.admitted, ks[..n], ks[n]);
      SubsequenceOfPrefix(p.requeued, ks[..n], ks[n]);
    }
  }

  /** The load is that of the admitted kernels; the threads are not used up if any kernel was
      admitted; and no kernel that was put back would fit the load in the end. */
  lemma {:induction false} PassIsFair(ks: seq<Kernel>, load: Load, threads: Weight)
    requires threads != 0
    ensures var p := Passed(ks, load, threads);
            && p.load == Total(p.admitted, load) && load.AtMost(p.load)
            && (p.admitted != [] ==> p.load.Used(threads) < threads)
            && (forall k <- p.requeued :: !Fits(k, p.load, threads))
  {
    if ks != [] {
      var n := |ks| - 1;
      var k := ks[n];
      PassIsFair(ks[..n], load, threads);
      var p := Passed(ks[..n], load, threads);
      hide Load.Used, Load.Add, Kernel.Weights;
      if Fits(k, p.load, threads) {
        assert (p.admitted + [k])[..|p.admitted|] == p.admitted;
        AddMono(p.load, p.load, k.Weights());
        forall r | r in p.requeued ensures !Fits(r, p.load.Add(k.Weights()), threads) {
          StillTooMuch(r, p.load, p.load.Add(k.Weights()), threads);
        }
      }
    }
  }

  lemma StillTooMuch(k: Kernel, load: Load, more: Load, threads: Weight)
    requires threads != 0 && load.AtMost(more) && !Fits(k, load, threads)
    ensures !Fits(k, more, threads)
  {
    AddMono(load, more, k.Weights());
    UsedMono(load.Add(k.Weights()), more.Add(k.Weights()), threads);
  }

  /** The same in plain numbers. */
  lemma PassIsPlain(ks: seq<Kernel>, load: Load, threads: Weight)
    requires threads != 0
    ensures var p := Passed(ks, load, threads);
            PlainlyFair(load.Wanted(threads), p.admitted, p.requeued, threads)
  {
    PassIsFair(ks, load, threads);
    AddIsExact(load, load, threads);
    var p := Passed(ks, load, threads);
    hide Passed, Total, Load.Used, Load.Wanted, Fits;
    FairIsPlain(load.Wanted(threads), load, p.admitted, p.requeued, threads);
  }

  /** If the load uses all threads already, nothing is admitted. */
  lemma {:induction false} NothingFits(ks: seq<Kernel>, load: Load, threads: Weight)
    requires threads != 0 && threads <= load.Used(threads)
    ensures Passed(ks, load, threads) == Pass([], ks, load)
  {
    if ks != [] {
      var n := |ks| - 1;
      NothingFits(ks[..n], load, threads);
      AddMono(load, load, ks[n].Weights());
      UsedMono(load, load.Add(ks[n].Weights()), threads);
      assert ks == ks[..n] + [ks[n]];
    }
  }

  ghost function Pick(apps: set<nat>): (app: nat)
    requires apps != {}
    ensures app in apps
  {
    var app :| app in apps;
    app
  }

  /** The loads of `apps` together. */
  ghost function SumOf(jobs: map<nat, Load>, apps: set<nat>): Load
    requires apps <= jobs.Keys
  {
    if apps == {} then Load(0, 0)
    else SumOf(jobs, apps - {Pick(apps)}).Add(jobs[Pick(apps)])
  }

  /** The sum does not depend on the order: any application may be added last. */
  lemma {:induction false} SumAny(jobs: map<nat, Load>, apps: set<nat>, app: nat)
    requires apps <= jobs.Keys && app in apps
    ensures SumOf(jobs, apps) == SumOf(jobs, apps - {app}).Add(jobs[app])
    decreases apps
  {
    var other := Pick(apps);
    if other != app {
      SumAny(jobs, apps - {other}, app);
      SumAny(jobs, apps - {app}, other);
      assert apps - {other} - {app} == apps - {app} - {other};
      AddReorder(SumOf(jobs, apps - {app} - {other}), jobs[app], jobs[other]);
    }
  }

  lemma {:induction false} SumDepends(jobs: map<nat, Load>, others: map<nat, Load>, apps: set<nat>)
    requires apps <= jobs.Keys * others.Keys && forall app <- apps :: jobs[app] == others[app]
    ensures SumOf(jobs, apps) == SumOf(others, apps)
    decreases apps
  {
    if apps != {} { SumDepends(jobs, others, apps - {Pick(apps)}); }
  }

  ghost function SumAll(jobs: map<nat, Load>): Load {
    SumOf(jobs, jobs.Keys)
  }

  /** What a table holds after `load` was added to one of its entries, or to a new one. */
  lemma SumOfUpdate(jobs: map<nat, Load>, app: nat, load: Load)
    ensures SumAll(jobs[app := (if app in jobs then jobs[app] else Load(0, 0)).Add(load)]) == SumAll(jobs).Add(load)
  {
    var was := if app in jobs then jobs[app] else Load(0, 0);
    var more := jobs[app := was.Add(load)];
    var rest := jobs.Keys - {app};
    SumAny(more, more.Keys, app);
    assert more.Keys - {app} == rest;
    SumDepends(jobs, more, rest);
    if app in jobs { SumAny(jobs, jobs.Keys, app); } else { assert rest == jobs.Keys; }
    AddAssociative(SumOf(jobs, rest), was, load);
  }

  /** The load that connections note for kernels: only those that go upstream are noted. */
  function Noted(ks: seq<Kernel>, load: Load): Load {
    if ks == [] then load else Noted(ks[..|ks| - 1], load).Add(ks[|ks| - 1].Booked())
  }

  /** A pass reckons with at least the load that is noted. */
  lemma {:induction false} NotedIsCounted(ks: seq<Kernel>, load: Load)
    ensures Noted(ks, load).AtMost(Total(ks, load))
  {
    if ks != [] {
      var n := |ks| - 1;
      NotedIsCounted(ks[..n], load);
      AddMono(Noted(ks[..n], load), Total(ks[..n], load), ks[n].Weights());
    }
  }

  lemma NothingPassed(load: Load, threads: Weight)
    requires threads != 0
    ensures Passed([], load, threads) == Pass([], [], load) && Total([], load) == load
    ensures forall noted :: Noted([], noted) == noted
  {
  }

  lemma PassedNext(ks: seq<Kernel>, i: nat, load: Load, threads: Weight)
    requires threads != 0 && i < |ks|
    ensures var p := Passed(ks[..i], load, threads);
            Passed(ks[..i + 1], load, threads) ==
              if Fits(ks[i], p.load, threads) then Pass(p.admitted + [ks[i]], p.requeued, p.load.Add(ks[i].Weights()))
              else Pass(p.admitted, p.requeued + [ks[i]], p.load)
    ensures Total(ks[..i + 1], load) == Total(ks[..i], load).Add(ks[i].Weights())
  {
    hide Fits, Load.Add, Kernel.Weights;
    assert ks[..i + 1][..i] == ks[..i];
  }

  lemma NotedNext(ks: seq<Kernel>, k: Kernel, load: Load)
    ensures Noted(ks + [k], load) == Noted(ks, load).Add(k.Booked())
  {
    assert (ks + [k])[..|ks|] == ks;
  }

  lemma {:induction false} NotedOfSum(ks: seq<Kernel>, ls: seq<Kernel>, load: Load)
    ensures Noted(ks + ls, load) == Noted(ls, Noted(ks, load))
  {
    if ls == [] {
      assert ks + ls == ks;
    } else {
      var n := |ls| - 1;
      NotedOfSum(ks, ls[..n], load);
      assert (ks + ls)[..|ks| + n] == ks + ls[..n];
    }
  }

  // ---------------------------------------------------------------------------
  // Admission in plain numbers.

  /** The threads that a kernel takes. */
  function Demand(k: Kernel, threads: Weight): nat {
    if k.weight == MAX then threads else k.weight
  }

  function Demands(ks: seq<Kernel>, threads: Weight): nat {
    if ks == [] then 0 else Demands(ks[..|ks| - 1], threads) + Demand(ks[|ks| - 1], threads)
  }

  /** The threads that the applications want together, without any limit. */
  ghost function InUse(jobs: map<nat, Load>, apps: set<nat>, threads: Weight): int
    requires apps <= jobs.Keys
  {
    if apps == {} then 0 else InUse(jobs, apps - {Pick(apps)}, threads) + jobs[Pick(apps)].Wanted(threads)
  }

  ghost function AllInUse(jobs: map<nat, Load>, threads: Weight): int {
    InUse(jobs, jobs.Keys, threads)
  }

  /** The sum of the loads is exact unless it is too large anyway. */
  lemma {:induction false} SumIsInUse(jobs: map<nat, Load>, apps: set<nat>, threads: Weight)
    requires apps <= jobs.Keys && threads != 0
    ensures 0 <= InUse(jobs, apps, threads)
    ensures if InUse(jobs, apps, threads) <= MAX then SumOf(jobs, apps).Wanted(threads) == InUse(jobs, apps, threads)
            else MAX <= SumOf(jobs, apps).Wanted(threads)
    decreases apps
  {
    if apps != {} {
      var app := Pick(apps);
      SumIsInUse(jobs, apps - {app}, threads);
      hide Load.Wanted, Load.Add;
      AddIsExact(SumOf(jobs, apps - {app}), jobs[app], threads);
    } else {
      assert Load(0, 0).Wanted(threads) == 0;
    }
  }

  lemma {:induction false} InUseAny(jobs: map<nat, Load>, apps: set<nat>, app: nat, threads: Weight)
    requires apps <= jobs.Keys && app in apps
    ensures InUse(jobs, apps, threads) == InUse(jobs, apps - {app}, threads) + jobs[app].Wanted(threads)
    decreases apps
  {
    hide Load.Wanted;
    var other := Pick(apps);
    if other != app {
      InUseAny(jobs, apps - {other}, app, threads);
      InUseAny(jobs, apps - {app}, other, threads);
      assert apps - {other} - {app} == apps - {app} - {other};
    }
  }

  lemma {:induction false} InUseDepends(jobs: map<nat, Load>, others: map<nat, Load>, apps: set<nat>, threads: Weight)
    requires apps <= jobs.Keys * others.Keys && forall app <- apps :: jobs[app] == others[app]
    ensures InUse(jobs, apps, threads) == InUse(others, apps, threads)
    decreases apps
  {
    if apps != {} { InUseDepends(jobs, others, apps - {Pick(apps)}, threads); }
  }

  lemma DemandIsWanted(k: Kernel, threads: Weight)
    requires threads != 0
    ensures k.Weights().Wanted(threads) == Demand(k, threads)
    ensures k.Booked().Wanted(threads) == if k.upstream then Demand(k, threads) else 0
  {
  }

  /** A kernel that is passed on adds what it takes if it goes upstream, and nothing otherwise. */
  lemma InUseOfUpdate(jobs: map<nat, Load>, k: Kernel, threads: Weight)
    requires threads != 0 && AllInUse(jobs, threads) + Demand(k, threads) <= MAX
    ensures var load := if k.app in jobs then jobs[k.app] else Load(0, 0);
            AllInUse(jobs[k.app := load.Add(k.Booked())], threads)
            == AllInUse(jobs, threads) + if k.upstream then Demand(k, threads) else 0
  {
    var was := if k.app in jobs then jobs[k.app] else Load(0, 0);
    var more := jobs[k.app := was.Add(k.Booked())];
    var rest := jobs.Keys - {k.app};
    DemandIsWanted(k, threads);
    assert Load(0, 0).Wanted(threads) == 0;
    hide Load.Wanted, Load.Add, Kernel.Booked, Demand;
    InUseAny(more, more.Keys, k.app, threads);
    assert more.Keys - {k.app} == rest;
    InUseDepends(jobs, more, rest, threads);
    SumIsInUse(jobs, rest, threads);
    if k.app in jobs { InUseAny(jobs, jobs.Keys, k.app, threads); } else { assert rest == jobs.Keys; }
    AddIsExact(was, k.Booked(), threads);
  }

  /** A kernel fits exactly if it leaves a thread free. */
  lemma FitsPlainly(k: Kernel, load: Load, threads: Weight)
    requires threads != 0
    ensures Fits(k, load, threads) <==> load.Wanted(threads) + Demand(k, threads) < threads
  {
    DemandIsWanted(k, threads);
    AddIsExact(load, k.Weights(), threads);
    UsedIsClamped(load.Add(k.Weights()), threads);
  }

  lemma {:induction false} TotalIsExact(ks: seq<Kernel>, load: Load, threads: Weight)
    requires threads != 0
    ensures 0 <= load.Wanted(threads)
    ensures var n := load.Wanted(threads) + Demands(ks, threads);
            if n <= MAX then Total(ks, load).Wanted(threads) == n else MAX <= Total(ks, load).Wanted(threads)
  {
    hide Load.Wanted, Load.Add, Kernel.Weights, Demand;
    AddIsExact(load, load, threads);
    if ks != [] {
      var n := |ks| - 1;
      TotalIsExact(ks[..n], load, threads);
      DemandIsWanted(ks[n], threads);
      AddIsExact(Total(ks[..n], load), ks[n].Weights(), threads);
    }
  }

  lemma {:induction false} DemandsCount(ks: seq<Kernel>, k: Kernel, threads: Weight)
    requires k in ks
    ensures Demand(k, threads) <= Demands(ks, threads)
  {
    var n := |ks| - 1;
    if k != ks[n] {
      assert k in ks[..n];
      DemandsCount(ks[..n], k, threads);
    }
  }

  lemma FitsInUse(k: Kernel, jobs: map<nat, Load>, threads: Weight)
    requires threads != 0
    ensures Fits(k, SumAll(jobs), threads) <==> AllInUse(jobs, threads) + Demand(k, threads) < threads
  {
    SumIsInUse(jobs, jobs.Keys, threads);
    FitsPlainly(k, SumAll(jobs), threads);
  }

  /** Whatever is admitted and put back when the load becomes `Total(admitted, load)`: the threads that
      are wanted in the beginning and those of the admitted kernels are fewer than there are, none of
      these kernels takes all threads, and no kernel that waits could be added. */
  ghost predicate PlainlyFair(inUse: int, admitted: seq<Kernel>, waiting: seq<Kernel>, threads: Weight) {
    && (admitted != [] ==> inUse + Demands(admitted, threads) < threads)
    && (forall k <- admitted :: k.weight != MAX)
    && forall k <- waiting :: threads <= inUse + Demands(admitted, threads) + Demand(k, threads)
  }

  lemma FairIsPlain(inUse: int, load: Load, admitted: seq<Kernel>, waiting: seq<Kernel>, threads: Weight)
    requires threads != 0 && 0 <= inUse
    requires if inUse <= MAX then load.Wanted(threads) == inUse else MAX <= load.Wanted(threads)
    requires admitted != [] ==> Total(admitted, load).Used(threads) < threads
    requires forall k <- waiting :: !Fits(k, Total(admitted, load), threads)
    ensures PlainlyFair(inUse, admitted, waiting, threads)
  {
    var all := Total(admitted, load);
    TotalIsExact(admitted, load, threads);
    UsedIsClamped(all, threads);
    hide Total, Load.Used, Load.Wanted, Fits;
    forall k | k in admitted ensures k.weight != MAX { DemandsCount(admitted, k, threads); }
    forall k | k in waiting ensures threads <= inUse + Demands(admitted, threads) + Demand(k, threads) {
      FitsPlainly(k, all, threads);
    }
  }

  class ProcessPipeline {
    const threads: Weight
    const interleave: bool
    /** The kernels to be processed and those to be forwarded, the load of the connection of each
        application, and what has been passed to them. */
    var kernels: seq<Kernel>
    var outstanding: seq<Kernel>
    var jobs: map<nat, Load>
    var passed: seq<Kernel>

    constructor (threads: Weight, interleave: bool)
      requires threads != 0
      ensures this.threads == threads && this.interleave == interleave
      ensures kernels == outstanding == passed == [] && jobs == map[]
    {
      this.threads, this.interleave := threads, interleave;
      kernels, outstanding, jobs, passed := [], [], map[], [];
    }

    /** The load of all applications together, each one added once. */
    method TotalLoad() returns (sum: Load)
      ensures sum == SumAll(jobs)
    {
      sum := Load(0, 0);
      var rest := jobs.Keys;
      while rest != {}
        invariant rest <= jobs.Keys && sum == SumOf(jobs, jobs.Keys - rest)
        decreases |rest|
      {
        var k :| k in rest;
        SumAny(jobs, jobs.Keys - (rest - {k}), k);
        assert jobs.Keys - (rest - {k}) - {k} == jobs.Keys - rest;
        rest := rest - {k};
        sum := sum.Add(jobs[k]);
      }
      assert jobs.Keys - rest == jobs.Keys;
    }

    /** Passes a kernel to the application, which is started if it does not run yet. */
    method Dispatch(k: Kernel)
      modifies this`jobs, this`passed
      ensures passed == old(passed) + [k] && jobs.Keys == old(jobs).Keys + {k.app}
      ensures forall app <- old(jobs) :: app != k.app ==> jobs[app] == old(jobs)[app]
      ensures SumAll(jobs) == SumAll(old(jobs)).Add(k.Booked())
      ensures threads != 0 && AllInUse(old(jobs), threads) + Demand(k, threads) <= MAX ==>
                AllInUse(jobs, threads) == AllInUse(old(jobs), threads) + if k.upstream then Demand(k, threads) else 0
    {
      hide AllInUse, SumAll, Demand;
      if threads != 0 && AllInUse(jobs, threads) + Demand(k, threads) <= MAX { InUseOfUpdate(jobs, k, threads); }
      var load := if k.app in jobs then jobs[k.app] else Load(0, 0);
      SumOfUpdate(jobs, k.app, k.Booked());
      jobs := jobs[k.app := load.Add(k.Booked())];
      passed := passed + [k];
    }

    /** A kernel that has just come is passed on at once if it fits, and waits otherwise. */
    method Forward(k: Kernel)
      requires threads != 0
      modifies this`jobs, this`passed, this`outstanding
      ensures if (!interleave && |old(jobs).Keys| == 1)
                 || AllInUse(old(jobs), threads) + Demand(k, threads) < threads
              then passed == old(passed) + [k] && outstanding == old(outstanding)
                   && SumAll(jobs) == SumAll(old(jobs)).Add(k.Booked())
              else outstanding == old(outstanding) + [k] && passed == old(passed) && jobs == old(jobs)
    {
      FitsInUse(k, jobs, threads);
      hide SumAll, AllInUse, Load.Used, Load.Add, Kernel.Weights;
      var current := TotalLoad();
      current := current.Add(k.Weights());
      if (!interleave && |jobs.Keys| == 1) || current.Used(threads) < threads {
        Dispatch(k);
      } else {
        outstanding := outstanding + [k];
      }
    }

    /** One pass over a queue: every kernel is taken from the front once, and what does not fit goes
        back to the end. */
    method DoProcessKernels(queue: seq<Kernel>, load: Load) returns (rest: seq<Kernel>, newLoad: Load)
      requires threads != 0
      modifies this`jobs, this`passed
      ensures interleave ==>
                var p := Passed(queue, load, threads);
                rest == p.requeued && newLoad == p.load && passed == old(passed) + p.admitted
      ensures !interleave && |old(jobs).Keys| == 1 && (forall k <- queue :: k.app in old(jobs)) ==>
                rest == [] && passed == old(passed) + queue && newLoad == Total(queue, load)
      ensures old(passed) <= passed && SumAll(jobs) == Noted(passed[|old(passed)|..], SumAll(old(jobs)))
      ensures interleave ==> PlainlyFair(load.Wanted(threads), passed[|old(passed)|..], rest, threads)
    {
      hide Load.Used, Load.Add, Kernel.Weights, Kernel.Booked, SumAll, Noted, Passed, Total;
      rest, newLoad := queue, load;
      ghost var back, given := [], [];
      NothingPassed(load, threads);
      for i := 0 to |queue|
        invariant rest == queue[i..] + back && passed == old(passed) + given
        invariant interleave ==> Passed(queue[..i], load, threads) == Pass(given, back, newLoad)
        invariant !interleave && |old(jobs).Keys| == 1 && (forall k <- queue :: k.app in old(jobs)) ==>
                    jobs.Keys == old(jobs).Keys && back == [] && given == queue[..i]
                      && newLoad == Total(queue[..i], load)
        invariant SumAll(jobs) == Noted(given, SumAll(old(jobs)))
      {
        PassedNext(queue, i, load, threads);
        var k := rest[0];
        rest := rest[1..];
        assert k == queue[i] && rest == queue[i + 1..] + back;
        var more := newLoad.Add(k.Weights());
        if (!interleave && |jobs.Keys| == 1) || more.Used(threads) < threads {
          Dispatch(k);
          NotedNext(given, k, SumAll(old(jobs)));
          given := given + [k];
          newLoad := more;
        } else {
          rest := rest + [k];
          back := back + [k];
        }
      }
      assert queue[..|queue|] == queue && passed[|old(passed)|..] == given;
      PassIsPlain(queue, load, threads);
    }

    /** Both queues, one after the other; the second one sees the load that the first one leaves.
        What the connections note in the end is within the load that was reckoned with. */
    method ProcessKernels() returns (ghost p: Pass, ghost q: Pass)
      requires threads != 0 && interleave
      modifies this
      ensures p == Passed(old(kernels), SumAll(old(jobs)), threads) && q == Passed(old(outstanding), p.load, threads)
      ensures kernels == p.requeued && outstanding == q.requeued && passed == old(passed) + p.admitted + q.admitted
      ensures q.load == Total(p.admitted + q.admitted, SumAll(old(jobs)))
      ensures SumAll(jobs) == Noted(p.admitted + q.admitted, SumAll(old(jobs))) && SumAll(jobs).AtMost(q.load)
      ensures forall k <- kernels + outstanding :: !Fits(k, q.load, threads)
      ensures passed != old(passed) ==> SumAll(jobs).Used(threads) <= q.load.Used(threads) < threads
      ensures PlainlyFair(AllInUse(old(jobs), threads), p.admitted + q.admitted, kernels + outstanding, threads)
    {
      SumIsInUse(jobs, jobs.Keys, threads);
      hide AllInUse, PlainlyFair, Load.Wanted;
      hide Load.Used, Load.Add, Fits, Passed, Total, Load.AtMost, SumAll, Noted;
      var current := TotalLoad();
      ghost var load := current;
      p := Passed(kernels, load, threads);
      q := Passed(outstanding, p.load, threads);
      TwoPasses(kernels, outstanding, load, threads);
      FairIsPlain(AllInUse(jobs, threads), load, p.admitted + q.admitted, p.requeued + q.requeued, threads);
      NotedIsCounted(p.admitted + q.admitted, load);
      NotedOfSum(p.admitted, q.admitted, load);
      kernels, current := DoProcessKernels(kernels, current);
      assert passed[|old(passed)|..] == p.admitted;
      ghost var was := passed;
      outstanding, current := DoProcessKernels(outstanding, current);
      assert passed[|was|..] == q.admitted;
      UsedMono(SumAll(jobs), q.load, threads);
    }
  }

  lemma TwoPasses(ks: seq<Kernel>, ls: seq<Kernel>, load: Load, threads: Weight)
    requires threads != 0
    ensures var p := Passed(ks, load, threads);
            var q := Passed(ls, p.load, threads);
            && q.load == Total(p.admitted + q.admitted, load)
            && (forall k <- p.requeued + q.requeued :: !Fits(k, q.load, threads))
            && (p.admitted != [] || q.admitted != [] ==> q.load.Used(threads) < threads)
  {
    var p := Passed(ks, load, threads);
    var q := Passed(ls, p.load, threads);
    PassIsFair(ks, load, threads);
    PassIsFair(ls, p.load, threads);
    TotalOfSum(p.admitted, q.admitted, load);
    hide Passed, Total, Load.Used, Load.Add;
    forall k | k in p.requeued ensures !Fits(k, q.load, threads) { StillTooMuch(k, p.load, q.load, threads); }
    if q.admitted == [] { NothingAdded(p.load, q.load, threads, q.admitted); }
  }

  lemma NothingAdded(load: Load, more: Load, threads: Weight, ks: seq<Kernel>)
    requires ks == [] && more == Total(ks, load)
    ensures more == load
  {
  }

  lemma {:induction false} TotalOfSum(ks: seq<Kernel>, ls: seq<Kernel>, load: Load)
    ensures Total(ks + ls, load) == Total(ls, Total(ks, load))
  {
    if ls == [] {
      assert ks + ls == ks;
    } else {
      var n := |ls| - 1;
      TotalOfSum(ks, ls[..n], load);
      assert (ks + ls)[..|ks| + n] == ks + ls[..n];
    }
  }
}
