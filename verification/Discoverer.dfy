/** The daemon of one node: it looks for a superior and answers the messages of the protocol. */
module Discoverer {
  import opened H = Hierarchy
  import opened Discovery
  import I = TreeIterator
  import P = TreePosition

  ghost function Contents<R>(s: seq<Message<R>>): set<Message<R>> {
    set m | m in s
  }

  lemma NothingTold<R(!new)>(v: View<R>, radius: int, ignored: Address)
    ensures Tells(false, v, radius, ignored, Contents([]))
  {
  }

  lemma Appended<R>(s: seq<Message<R>>, t: seq<Message<R>>, u: seq<Message<R>>)
    requires u == s + t
    ensures s <= u && u[|s|..] == t
  {
  }

  lemma OneLonger<R>(s: seq<Message<R>>, t: seq<Message<R>>, m: Message<R>)
    ensures s + t + [m] == s + (t + [m])
  {
  }

  lemma OneMore<R>(s: seq<Message<R>>, m: Message<R>)
    ensures Contents(s + [m]) == Contents(s) + {m}
  {
  }

  lemma GossipToOneMore<R>(me: Address, keys: set<Address>, k: Address, ignored: Address, list: seq<Node<R>>)
    ensures GossipTo(me, keys + {k}, ignored, list)
            == GossipTo(me, keys, ignored, list) + if k == ignored then {} else {Gossip(me, k, list)}
  {
  }

  /** A change of the table shows in the versions, hence later changes of superiors do not hide it. */
  lemma ChangeStays<R>(v: View<R>, list: seq<Node<R>>, w: View<R>)
    requires forall k :: v.Merged(list).VersionOf(k) <= w.VersionOf(k)
    ensures v.Merged(list) != v ==> w != v
  {
    MergeChanges(v, list);
    if v.Merged(list) != v {
      var a :| a in list && a.address != v.me.address && v.VersionOf(a.address) < a.version;
      MergedIsLatest(v, list, a.address);
    }
  }

  class Discoverer<R(!new, ==)> {
    const first: Address
    const position: int
    const fanout: int
    const maxAttempts: int
    const radius: int
    const hierarchy: Hierarchy<R>
    var candidates: I.Iterator
    var attempts: int
    var waiting: bool
    /** The timers started so far and the messages sent so far. */
    var timers: nat
    var outbox: seq<Message<R>>

    ghost predicate Valid()
      reads this`candidates, hierarchy, candidates, candidates.base, candidates.parent, candidates.current
    {
      Informed() && Iterating()
    }

    ghost predicate Informed()
      reads hierarchy
    {
      SoundView(hierarchy.Value()) && hierarchy.me.address == first + position - 1
    }

    ghost predicate Iterating()
      reads this`candidates, candidates, candidates.base, candidates.parent, candidates.current
    {
      && 1 <= first && 1 <= position < P.W && 1 <= fanout < P.W && P.Representable(position, fanout)
      && candidates.Valid() && candidates.first == first && candidates.skip == 0
      && candidates.own.WellFormed() && candidates.own.Linear() + 1 == position
      && (candidates.state != I.State.End ==> 0 < candidates.count)
    }

    ghost function Knowledge(): View<R>
      reads hierarchy
    {
      hierarchy.Value()
    }

    /** The event `e` has led from the view `v` to the present one, and the messages `s` are sent. */
    ghost predicate Did(v: View<R>, e: Event<R>, s: seq<Message<R>>)
      reads hierarchy
    {
      && Knowledge() == Next(v, e, hierarchy.blank)
      && exists told, list ::
           Reacts(first, radius, hierarchy.blank, v, e, told, list) && Contents(s) == told + Extra(v, e, list)
    }

    /** What one daemon does is a step of the network. */
    lemma DidIsStep(s: System<R>, x: Address, e: Event<R>, sent: seq<Message<R>>) returns (a: Action<R>, t: System<R>)
      requires x in s.views && Did(s.views[x], e, sent) && (e.Receive? ==> e.m in s.sent)
      ensures Step(first, hierarchy.blank, s, a, t) && a.at == x && a.event == e
      ensures t == System(s.views[x := Knowledge()], s.sent + Contents(sent))
    {
      var v, blank := s.views[x], hierarchy.blank;
      var told, list :| Reacts(first, radius, blank, v, e, told, list) && Contents(sent) == told + Extra(v, e, list);
      a := Action(x, e, radius, told, list);
      t := System(s.views[x := Knowledge()], s.sent + Contents(sent));
    }

    /** What has been done, put together. */
    lemma Done(v: View<R>, e: Event<R>, told: seq<Message<R>>, list: seq<Node<R>>, s: seq<Message<R>>)
      requires Knowledge() == Next(v, e, hierarchy.blank)
      requires (e.Receive? && e.m.target == v.me.address) || (e.ClientRemoved? && e.a != NOWHERE) || e.NewResources?
      requires Tells(Changed(v, e, hierarchy.blank), Knowledge(), radius, Ignored(e), Contents(told))
      requires e.Receive? && e.m.Probe? ==> Report(Knowledge(), radius, list)
      requires Contents(s) == Contents(told) + Extra(v, e, list)
      ensures Did(v, e, s)
    {
      assert Reacts(first, radius, hierarchy.blank, v, e, Contents(told), list);
    }

    constructor (first: Address, position: int, fanout: int, maxAttempts: int, radius: int, resources: R)
      requires 1 <= first && 1 <= position < P.W && 1 <= fanout < P.W && P.Representable(position, fanout)
      ensures Valid() && fresh(hierarchy) && fresh(candidates) && fresh(candidates.current)
      ensures Knowledge() == View(Node(first + position - 1, NOWHERE, resources, 0), map[]) && outbox == []
    {
      this.first, this.position, this.fanout := first, position, fanout;
      this.maxAttempts, this.radius := maxAttempts, radius;
      this.hierarchy := new Hierarchy(first + position - 1, resources);
      this.candidates := new I.Iterator(position, fanout, first, 0);
      this.attempts, this.waiting, this.timers, this.outbox := 0, false, 0, [];
    }

    method ResetIterator()
      requires Valid()
      modifies this`candidates
      ensures Valid() && fresh(candidates) && fresh(candidates.current)
    {
      candidates := new I.Iterator(position, fanout, first, 0);
    }

    method DiscoverLater()
      modifies this`waiting, this`timers
      ensures waiting && timers == old(timers) + 1
    {
      waiting := true;
      timers := timers + 1;
    }

    /** Probes the next candidate, or starts from the beginning after a while. */
    method Discover()
      requires Valid()
      modifies this`candidates, this`attempts, this`waiting, this`timers, this`outbox, candidates, candidates.current
      ensures Valid() && old(outbox) <= outbox
      ensures candidates == old(candidates) || (fresh(candidates) && fresh(candidates.current))
      ensures if old(candidates.state) == I.State.End then outbox == old(outbox) && waiting && timers == old(timers) + 1
              else |outbox| == |old(outbox)| + 1
                   && Did(Knowledge(), Event.Discover(old(candidates.address)), outbox[|old(outbox)|..])
    {
      hide I.Iterator.Valid, P.Representable, P.Pos.WellFormed, P.Pos.Linear, SoundView, Report, View.Merged;
      if candidates.state == I.State.End {
        ResetIterator();
        DiscoverLater();
      } else {
        candidates.ShownIsLower();
        var address := candidates.address;
        ghost var e := Event.Discover(address);
        var p := Probe(hierarchy.me.address, address, hierarchy.me.superior, address, [hierarchy.me]);
        outbox := outbox + [p];
        attempts := attempts + 1;
        if attempts >= maxAttempts {
          attempts := 0;
          candidates.Next();
        }
        assert Reacts(first, radius, hierarchy.blank, Knowledge(), e, {}, []);
        assert outbox[|old(outbox)|..] == [p];
        assert Contents([p]) == {p};
      }
    }

    method OnTimer() returns (ghost to: Address)
      requires Valid()
      modifies this`candidates, this`attempts, this`waiting, this`timers, this`outbox, candidates, candidates.current
      ensures Valid() && old(outbox) <= outbox
      ensures outbox != old(outbox) ==>
                to != hierarchy.me.superior && Did(Knowledge(), Event.Discover(to), outbox[|old(outbox)|..])
      ensures !old(waiting) ==> outbox == old(outbox) && timers == old(timers)
      ensures old(waiting) ==> outbox != old(outbox) || timers == old(timers) + 1
    {
      hide I.Iterator.Valid, P.Representable, P.Pos.WellFormed, P.Pos.Linear, SoundView, Did;
      to := NOWHERE;
      if !waiting { return; }
      if hierarchy.me.superior != NOWHERE { ResetIterator(); }
      if hierarchy.me.superior != candidates.address {
        if candidates.state != I.State.End {
          candidates.ShownIsLower();
          to := candidates.address;
        }
        Discover();
      } else {
        DiscoverLater();
      }
    }

    /** Tells everybody known but one what this node knows. */
    method BroadcastHierarchy(ignored: Address) returns (ghost s: seq<Message<R>>)
      requires SoundView(Knowledge())
      modifies this`outbox
      ensures outbox == old(outbox) + s && Tells(true, Knowledge(), radius, ignored, Contents(s))
      ensures Spreads(Knowledge(), radius, ignored, Contents(s))
    {
      SoundIsAcyclic(Knowledge());
      hide Acyclic, Report, Spreads;
      var list := hierarchy.Nodes(radius);
      s := [];
      ghost var start := outbox;
      var rest := hierarchy.nodes.Keys;
      ghost var me, all := hierarchy.me.address, rest;
      assert Contents(s) == GossipTo(me, all - rest, ignored, list);
      hide Contents, GossipTo, SoundView;
      while rest != {}
        invariant rest <= all && outbox == start + s && Contents(s) == GossipTo(me, all - rest, ignored, list)
        decreases |rest|
      {
        var k :| k in rest;
        assert all - (rest - {k}) == all - rest + {k};
        GossipToOneMore(me, all - rest, k, ignored, list);
        rest := rest - {k};
        if k != ignored {
          var m := Gossip(hierarchy.me.address, k, list);
          OneMore(s, m);
          OneLonger(start, s, m);
          outbox := outbox + [m];
          s := s + [m];
        }
      }
      assert all - rest == all;
      TellsSpreads(Knowledge(), radius, ignored, Contents(s));
    }

    method BroadcastIf(updated: bool, ignored: Address) returns (ghost s: seq<Message<R>>)
      requires SoundView(Knowledge())
      modifies this`outbox
      ensures outbox == old(outbox) + s && Tells(updated, Knowledge(), radius, ignored, Contents(s))
      ensures updated ==> Spreads(Knowledge(), radius, ignored, Contents(s))
    {
      hide Spreads;
      s := [];
      NothingTold(Knowledge(), radius, ignored);
      if updated { s := BroadcastHierarchy(ignored); }
    }

    method ProcessProbe(p: Message<R>) returns (result: ProbeResult, success: bool)
      requires p.Probe?
      ensures result == Judge(Knowledge(), p) && (success <==> result != RejectSubordinate)
    {
      result := Retain;
      if p.source == hierarchy.me.superior {
        success := false;
        result := RejectSubordinate;
      } else {
        if p.oldSuperior != p.newSuperior {
          if p.newSuperior == hierarchy.me.address {
            result := AddSubordinate;
          } else if p.oldSuperior == hierarchy.me.address {
            result := RemoveSubordinate;
          }
        }
        success := true;
      }
    }

    /** Merges the records of a probe and acts on the result. */
    method TakeIn(p: Message<R>, result: ProbeResult) returns (changed: bool)
      requires SoundView(Knowledge()) && p.Probe? && SoundMessage(p) && p.target == hierarchy.me.address
               && p.nodes != []
      requires result == Judge(Knowledge(), p)
      modifies hierarchy
      ensures Knowledge() == Next(old(Knowledge()), Receive(p), hierarchy.blank)
      ensures changed <==> Knowledge() != old(Knowledge())
    {
      ProbedChanges(Knowledge(), p, hierarchy.blank);
      hide SoundView, SoundMessage;
      changed := hierarchy.AddNodes(p.nodes);
      if result == AddSubordinate {
        var c := hierarchy.AddSubordinate(p.nodes[0]);
        changed := changed || c;
      } else if result == RemoveSubordinate {
        var c := hierarchy.RemoveNode(p.nodes[0].address);
        changed := changed || c;
      }
    }

    method ProbeReceived(p: Message<R>)
      requires Informed() && p.Probe? && SoundMessage(p) && p.target == hierarchy.me.address
      modifies this`outbox, hierarchy
      ensures Informed() && old(outbox) <= outbox
      ensures Did(old(Knowledge()), Receive(p), outbox[|old(outbox)|..])
    {
      ghost var v, e, start := Knowledge(), Receive(p), outbox;
      NextIsSound(v, e, hierarchy.blank);
      hide SoundView, SoundMessage, Report, Tells, Spreads, Contents, Acyclic, Next, Did;
      var result, success := ProcessProbe(p);
      var changed := false;
      if p.nodes != [] {
        changed := TakeIn(p, result);
      } else {
        NoRecords(v, p, hierarchy.blank);
      }
      ghost var told := BroadcastIf(changed, p.source);
      SoundIsAcyclic(Knowledge());
      var list := hierarchy.Nodes(radius);
      var reply := Reply(hierarchy.me.address, p.source, p.oldSuperior, p.newSuperior, success, list);
      outbox := outbox + [reply];
      OneMore(told, reply);
      OneLonger(start, told, reply);
      Appended(start, told + [reply], outbox);
      Done(v, e, told, list, told + [reply]);
    }

    /** Merges the records of a successful answer and takes its sender as the superior. */
    method TakeOver(p: Message<R>) returns (changed: bool)
      requires SoundView(Knowledge()) && p.Reply? && p.success && SoundMessage(p) && p.target == hierarchy.me.address
      modifies hierarchy
      ensures Knowledge() == Next(old(Knowledge()), Receive(p), hierarchy.blank)
      ensures changed <==> Knowledge() != old(Knowledge())
    {
      AnsweredChanges(Knowledge(), p);
      hide SoundView, SoundMessage;
      changed := false;
      if p.oldSuperior != p.newSuperior {
        if p.nodes != [] {
          changed := hierarchy.AddNodes(p.nodes);
          var c := hierarchy.AddSuperior(p.nodes[0]);
          changed := changed || c;
        }
      }
    }

    /** Takes over what a successful answer says, and notifies the old superior. */
    method Accept(p: Message<R>)
      requires Informed() && p.Reply? && p.success && SoundMessage(p) && p.target == hierarchy.me.address
      modifies this`outbox, hierarchy
      ensures Informed() && old(outbox) <= outbox
      ensures Did(old(Knowledge()), Receive(p), outbox[|old(outbox)|..])
    {
      ghost var v, e, start := Knowledge(), Receive(p), outbox;
      NextIsSound(v, e, hierarchy.blank);
      hide SoundView, Next, Report, Tells, Spreads, Contents, Did;
      var changed := TakeOver(p);
      ghost var told := BroadcastIf(changed, p.nodes[0].address);
      hide SoundMessage;
      ghost var s := told;
      if p.oldSuperior != NOWHERE && p.oldSuperior != p.newSuperior {
        var notice := Probe(hierarchy.me.address, p.oldSuperior, p.oldSuperior, p.newSuperior, []);
        outbox := outbox + [notice];
        OneMore(told, notice);
        OneLonger(start, told, notice);
        s := told + [notice];
      }
      Appended(start, s, outbox);
      Done(v, e, told, [], s);
    }

    method ProbeReturned(p: Message<R>)
      requires Valid() && p.Reply? && SoundMessage(p) && p.target == hierarchy.me.address
      modifies this`candidates, this`attempts, this`waiting, this`timers, this`outbox, hierarchy, candidates,
               candidates.current
      ensures Valid() && old(outbox) <= outbox
      ensures p.success ==> Did(old(Knowledge()), Receive(p), outbox[|old(outbox)|..]) && timers == old(timers) + 1
      ensures !p.success ==> Knowledge() == old(Knowledge())
      ensures !p.success && old(candidates.state) == I.State.End ==> outbox == old(outbox) && timers == old(timers) + 1
      ensures !p.success && old(candidates.state) != I.State.End ==>
                Did(old(Knowledge()), Event.Discover(old(candidates.address)), outbox[|old(outbox)|..])
    {
      hide Informed, Iterating, Did, SoundMessage;
      if !p.success {
        Discover();
      } else {
        Accept(p);
        DiscoverLater();
      }
    }

    /** The loss of a superior is told to the neighbours, but no new one is looked for. */
    method OnClientRemove(a: Address)
      requires Valid() && a != NOWHERE
      modifies this`outbox, hierarchy
      ensures Valid() && old(outbox) <= outbox && hierarchy.me.superior != a
      ensures Did(old(Knowledge()), ClientRemoved(a), outbox[|old(outbox)|..])
      ensures Knowledge() != old(Knowledge()) ==>
                Spreads(Knowledge(), radius, a, Contents(outbox[|old(outbox)|..]))
      ensures forall m <- outbox[|old(outbox)|..] :: m.Gossip?
    {
      ghost var v, e, start := Knowledge(), Event.ClientRemoved(a), outbox;
      NextIsSound(v, e, hierarchy.blank);
      RemovalShows(v, a);
      hide SoundView, Report, Tells, Spreads, Contents, Did, Iterating;
      var updated := hierarchy.RemoveNode(a);
      ghost var told := BroadcastIf(updated, a);
      Appended(start, told, outbox);
      Done(v, e, told, [], told);
      OnlyGossip(Changed(v, e, hierarchy.blank), Knowledge(), radius, a, told);
      if a == hierarchy.me.superior {
        // The next candidate is probed here, but the superior has just been cleared.
        assert false;
      }
    }

    method UpdateWeights(k: Message<R>)
      requires Valid() && k.Gossip? && SoundMessage(k) && k.target == hierarchy.me.address
      modifies this`outbox, hierarchy
      ensures Valid() && old(outbox) <= outbox
      ensures Did(old(Knowledge()), Receive(k), outbox[|old(outbox)|..])
      ensures Knowledge() != old(Knowledge()) ==>
                Spreads(Knowledge(), radius, k.source, Contents(outbox[|old(outbox)|..]))
    {
      ghost var v, e, start := Knowledge(), Receive(k), outbox;
      NextIsSound(v, e, hierarchy.blank);
      hide SoundView, SoundMessage, Report, Tells, Spreads, Contents, Did, Iterating;
      var updated := hierarchy.AddNodes(k.nodes);
      ghost var told := BroadcastIf(updated, k.source);
      Appended(start, told, outbox);
      Done(v, e, told, [], told);
    }

    method SetResources(r: R)
      requires Valid()
      modifies this`outbox, hierarchy
      ensures Valid() && old(outbox) <= outbox
      ensures Did(old(Knowledge()), NewResources(r), outbox[|old(outbox)|..])
      ensures Knowledge() != old(Knowledge()) ==>
                Spreads(Knowledge(), radius, NOWHERE, Contents(outbox[|old(outbox)|..]))
    {
      ghost var v, e, start := Knowledge(), Event.NewResources(r), outbox;
      NextIsSound(v, e, hierarchy.blank);
      hide SoundView, Report, Tells, Spreads, Contents, Did, Iterating;
      var updated := hierarchy.SetResources(r);
      ghost var told := BroadcastIf(updated, NOWHERE);
      Appended(start, told, outbox);
      Done(v, e, told, [], told);
    }
  }

  lemma OnlyGossip<R(!new)>(changed: bool, v: View<R>, radius: int, ignored: Address, s: seq<Message<R>>)
    requires Tells(changed, v, radius, ignored, Contents(s))
    ensures forall m <- s :: m.Gossip?
  {
    forall m | m in s ensures m.Gossip? { assert m in Contents(s); }
  }

  lemma AnsweredChanges<R>(v: View<R>, p: Message<R>)
    requires SoundView(v) && p.Reply? && SoundMessage(p) && p.target == v.me.address
    ensures p.success && p.oldSuperior != p.newSuperior ==>
              (Answered(v, p) != v <==> v.Merged(p.nodes) != v || v.me.superior != p.nodes[0].address)
    ensures v.Merged(p.nodes).me == v.me && p.nodes != []
  {
    MergedIsLatest(v, p.nodes, 0);
    ChangeStays(v, p.nodes, v.Merged(p.nodes).WithSuperior(p.nodes[0].address));
  }

  lemma NoRecords<R>(v: View<R>, p: Message<R>, blank: Node<R>)
    requires p.Probe? && p.nodes == []
    ensures Next(v, Receive(p), blank) == v
  {
  }

  /** The effects of a probe do not cancel each other. */
  lemma ProbedChanges<R>(v: View<R>, p: Message<R>, blank: Node<R>)
    requires SoundView(v) && p.Probe? && SoundMessage(p) && p.target == v.me.address && p.nodes != []
    ensures var m, a, w := v.Merged(p.nodes), p.nodes[0].address, Probed(v, p, blank);
            && a in m.nodes && m.me == v.me
            && (w != v <==> m != v || (Judge(v, p) == AddSubordinate && m.nodes[a].superior != v.me.address)
                            || (Judge(v, p) == RemoveSubordinate && m.nodes[a].superior == v.me.address))
            && (Judge(v, p) == RemoveSubordinate ==> v.me.superior != a)
  {
    var m, w := v.Merged(p.nodes), Probed(v, p, blank);
    MergedIsLatest(v, p.nodes, p.nodes[0].address);
    assert p.nodes[0] in p.nodes;
    hide View.Merged;
    forall k ensures m.VersionOf(k) == w.VersionOf(k) {}
    ChangeStays(v, p.nodes, w);
  }
}
