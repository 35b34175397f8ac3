/** The protocol by which the nodes of one network find their superiors and tell each other what
    they know: all nodes together with every message that was ever sent. */
module Discovery {
  import opened Arithmetic
  import opened H = Hierarchy

  datatype Message<R> =
    | Probe(source: Address, target: Address, oldSuperior: Address, newSuperior: Address, nodes: seq<Node<R>>)
    | Reply(source: Address, target: Address, oldSuperior: Address, newSuperior: Address, success: bool,
            nodes: seq<Node<R>>)
    | Gossip(source: Address, target: Address, nodes: seq<Node<R>>)

  datatype ProbeResult = AddSubordinate | RemoveSubordinate | RejectSubordinate | Retain

  /** What a node makes of a probe. */
  function Judge<R(==)>(v: View<R>, p: Message<R>): ProbeResult
    requires p.Probe?
  {
    if p.source == v.me.superior then RejectSubordinate
    else if p.oldSuperior == p.newSuperior then Retain
    else if p.newSuperior == v.me.address then AddSubordinate
    else if p.oldSuperior == v.me.address then RemoveSubordinate
    else Retain
  }

  function Probed<R(==)>(v: View<R>, p: Message<R>, blank: Node<R>): View<R>
    requires p.Probe?
  {
    if p.nodes == [] then v
    else
      var w, a := v.Merged(p.nodes), p.nodes[0].address;
      match Judge(v, p)
      case AddSubordinate => w.WithSubordinate(a, blank)
      case RemoveSubordinate => w.Without(a)
      case _ => w
  }

  function Answered<R(==)>(v: View<R>, p: Message<R>): View<R>
    requires p.Reply?
  {
    if !p.success || p.oldSuperior == p.newSuperior || p.nodes == [] then v
    else v.Merged(p.nodes).WithSuperior(p.nodes[0].address)
  }

  /** The gossip of `me` to the nodes `keys`, all but one. */
  ghost function GossipTo<R>(me: Address, keys: set<Address>, ignored: Address, list: seq<Node<R>>): set<Message<R>> {
    set k | k in keys && k != ignored :: Gossip(me, k, list)
  }

  /** Either nothing has changed and nothing is told, or all neighbours but one are told. */
  ghost predicate Tells<R(!new)>(changed: bool, v: View<R>, radius: int, ignored: Address, out: set<Message<R>>) {
    if changed then exists list :: Report(v, radius, list) && out == GossipTo(v.me.address, v.nodes.Keys, ignored, list)
    else out == {}
  }

  datatype Event<R> =
    | Discover(to: Address)
    | Receive(m: Message<R>)
    | ClientRemoved(a: Address)
    | NewResources(r: R)

  /** What the node knows after the event. */
  function Next<R(==)>(v: View<R>, e: Event<R>, blank: Node<R>): View<R> {
    match e
    case Discover(_) => v
    case Receive(m) => if m.Probe? then Probed(v, m, blank) else if m.Reply? then Answered(v, m) else v.Merged(m.nodes)
    case ClientRemoved(a) => v.Without(a)
    case NewResources(r) => v.WithResources(r)
  }

  /** The neighbour that is not told of the change. */
  function Ignored<R>(e: Event<R>): Address {
    match e
    case Receive(m) => if !m.Reply? then m.source else if m.nodes == [] then NOWHERE else m.nodes[0].address
    case ClientRemoved(a) => a
    case _ => NOWHERE
  }

  ghost predicate Changed<R>(v: View<R>, e: Event<R>, blank: Node<R>) {
    Next(v, e, blank) != v
  }

  /** The probes and replies that are sent. The second probe of a node that has found another
      superior goes to the old one, and it carries no records. */
  function Extra<R(==)>(v: View<R>, e: Event<R>, list: seq<Node<R>>): set<Message<R>> {
    var me := v.me.address;
    match e
    case Discover(to) => {Probe(me, to, v.me.superior, to, [v.me])}
    case Receive(Probe(source, _, old_, new_, _)) =>
      {Reply(me, source, old_, new_, Judge(v, e.m) != RejectSubordinate, list)}
    case Receive(Reply(_, _, old_, new_, true, _)) =>
      if old_ != NOWHERE && old_ != new_ then {Probe(me, old_, old_, new_, [])} else {}
    case _ => {}
  }

  /** A node in the state `v` may react to the event by sending `told` to its neighbours and
      answering with `list`; `first` is the lowest address of the network. */
  ghost predicate Reacts<R(!new)>(first: Address, radius: int, blank: Node<R>, v: View<R>, e: Event<R>,
                                  told: set<Message<R>>, list: seq<Node<R>>) {
    var w := Next(v, e, blank);
    && (e.Discover? ==> first <= e.to < v.me.address)
    && (e.Receive? ==> e.m.target == v.me.address)
    && (e.ClientRemoved? ==> e.a != NOWHERE)
    && (e.Receive? && e.m.Probe? ==> Report(w, radius, list))
    && Tells(Changed(v, e, blank), w, radius, Ignored(e), told)
  }

  // ---------------------------------------------------------------------------
  // Superiors stand lower.

  /** A superior has a lower address, and no superior at all is the lowest one. */
  ghost predicate SoundNode<R>(n: Node<R>) {
    n.superior < n.address
  }

  /** Besides, a node has a record of its own superior. */
  ghost predicate SoundView<R>(v: View<R>) {
    && v.Valid() && SoundNode(v.me) && (v.me.superior == NOWHERE || v.me.superior in v.nodes)
    && forall k <- v.nodes :: SoundNode(v.nodes[k])
  }

  ghost predicate SoundMessage<R>(m: Message<R>) {
    && (forall n <- m.nodes :: SoundNode(n))
    && (m.Probe? ==> m.target < m.source && m.oldSuperior < m.source && m.newSuperior < m.source
                     && (m.nodes != [] ==> m.nodes[0].address == m.source))
    && (m.Reply? ==> m.source < m.target && m.oldSuperior < m.target && m.newSuperior < m.target
                     && m.nodes != [] && m.nodes[0].address == m.source)
  }

  lemma SoundIsAcyclic<R>(v: View<R>)
    requires SoundView(v)
    ensures Acyclic(v.nodes[v.me.address := v.me]) && Acyclic(v.nodes)
  {
    var all := v.nodes[v.me.address := v.me];
    LowerIsAcyclic(all);
    LowerIsAcyclic(v.nodes);
  }

  lemma MergedIsSound<R>(v: View<R>, list: seq<Node<R>>)
    requires SoundView(v) && forall n <- list :: SoundNode(n)
    ensures SoundView(v.Merged(list)) && v.Merged(list).me == v.me
  {
    var w := v.Merged(list);
    MergedIsLatest(v, list, v.me.superior);
    forall k | k in w.nodes ensures SoundNode(w.nodes[k]) { MergedIsLatest(v, list, k); }
  }

  lemma ReportIsSound<R>(v: View<R>, radius: int, list: seq<Node<R>>)
    requires SoundView(v) && Report(v, radius, list)
    ensures list != [] && list[0] == v.me && forall n <- list :: SoundNode(n)
  {
    var up := Ancestors(v.nodes, v.me, radius);
    AncestorsKnown(v.nodes, v.me, radius);
    assert list == list[..|list| - |up|] + up;
  }

  lemma TellsSound<R(!new)>(changed: bool, v: View<R>, radius: int, ignored: Address, out: set<Message<R>>)
    requires SoundView(v) && Tells(changed, v, radius, ignored, out)
    ensures forall m <- out :: SoundMessage(m) && m.Gossip?
  {
    if changed {
      var list :| Report(v, radius, list) && out == GossipTo(v.me.address, v.nodes.Keys, ignored, list);
      ReportIsSound(v, radius, list);
    }
  }

  lemma NextIsSound<R>(v: View<R>, e: Event<R>, blank: Node<R>)
    requires SoundView(v) && (e.Receive? ==> SoundMessage(e.m) && e.m.target == v.me.address)
    ensures var w := Next(v, e, blank); SoundView(w) && w.me.address == v.me.address
  {
    if e.Receive? {
      MergedIsSound(v, e.m.nodes);
      if e.m.nodes != [] {
        assert e.m.nodes[0] in e.m.nodes;
        MergedIsLatest(v, e.m.nodes, e.m.nodes[0].address);
      }
    }
  }

  /** The nodes that a probe or a reply names stand lower than the one that asks; hence every
      reaction leads from sound states and messages to sound ones. */
  lemma ReactionIsSound<R(!new)>(first: Address, radius: int, blank: Node<R>, v: View<R>, e: Event<R>,
                                 told: set<Message<R>>, list: seq<Node<R>>)
    requires SoundView(v) && (e.Receive? ==> SoundMessage(e.m)) && Reacts(first, radius, blank, v, e, told, list)
    ensures var w := Next(v, e, blank); SoundView(w) && w.me.address == v.me.address
    ensures forall m <- told + Extra(v, e, list) :: SoundMessage(m)
  {
    var w := Next(v, e, blank);
    NextIsSound(v, e, blank);
    hide Report, View.Merged, Next, Tells;
    TellsSound(Changed(v, e, blank), w, radius, Ignored(e), told);
    if e.Receive? && e.m.Probe? { ReportIsSound(w, radius, list); }
  }

  /** A superior never tries to become a subordinate. */
  lemma NeverRejects<R>(v: View<R>, p: Message<R>)
    requires SoundView(v) && p.Probe? && SoundMessage(p) && p.target == v.me.address
    ensures Judge(v, p) != RejectSubordinate
  {
  }

  // ---------------------------------------------------------------------------
  // A change of the superior.

  /** Whoever answers with success becomes the superior, be it the one that was probed to become it
      or the old one that was only notified. */
  lemma WhoAnswersIsSuperior<R>(v: View<R>, m: Message<R>, blank: Node<R>)
    requires SoundView(v) && m.Reply? && SoundMessage(m) && m.success && m.oldSuperior != m.newSuperior
    ensures var w := Next(v, Receive(m), blank);
            w.me.superior == m.source && (w.me.superior == m.newSuperior <==> m.source == m.newSuperior)
  {
    MergedIsLatest(v, m.nodes, 0);
  }

  /** The notification of the old superior removes nothing there, and its answer makes the old
      superior the superior again and causes the same notification to be sent anew. */
  lemma SuperiorIsTakenBack<R(!new)>(v: View<R>, old_: View<R>, blank: Node<R>, radius: int, list: seq<Node<R>>)
    requires SoundView(v) && SoundView(old_) && old_.me.address < v.me.address && v.me.superior != old_.me.address
    requires Report(old_, radius, list)
    ensures var a, b := v.me.address, old_.me.address;
            var p := Probe(a, b, b, v.me.superior, []);
            var r := Reply(b, a, b, v.me.superior, true, list);
            && Next(old_, Receive(p), blank) == old_ && Extra(old_, Receive(p), list) == {r}
            && Next(v, Receive(r), blank).me.superior == b && Extra(v, Receive(r), []) == {p}
  {
    ReportIsSound(old_, radius, list);
    MergedIsLatest(v, list, 0);
  }

  // ---------------------------------------------------------------------------
  // The whole network.

  /** Every node's view and every message that was sent so far. Messages are never taken out: one
      that is never received again is lost, one that is received twice is duplicated. */
  datatype System<R(==)> = System(views: map<Address, View<R>>, sent: set<Message<R>>)

  datatype Action<R(==)> = Action(at: Address, event: Event<R>, radius: int, told: set<Message<R>>, list: seq<Node<R>>)

  ghost predicate Start<R>(s: System<R>) {
    && s.sent == {}
    && forall x <- s.views ::
         x != NOWHERE && s.views[x] == View(Node(x, NOWHERE, s.views[x].me.resources, 0), map[])
  }

  ghost predicate Step<R(!new)>(first: Address, blank: Node<R>, s: System<R>, a: Action<R>, t: System<R>) {
    && a.at in s.views && (a.event.Receive? ==> a.event.m in s.sent)
    && Reacts(first, a.radius, blank, s.views[a.at], a.event, a.told, a.list)
    && t == System(s.views[a.at := Next(s.views[a.at], a.event, blank)],
                   s.sent + (a.told + Extra(s.views[a.at], a.event, a.list)))
  }

  ghost predicate Run<R(!new)>(first: Address, blank: Node<R>, states: seq<System<R>>, actions: seq<Action<R>>) {
    && |states| == |actions| + 1 && Start(states[0])
    && forall i :: 0 <= i < |actions| ==> Step(first, blank, states[i], actions[i], states[i + 1])
  }

  ghost predicate Safe<R>(s: System<R>) {
    && (forall x <- s.views :: s.views[x].me.address == x && SoundView(s.views[x]))
    && forall m <- s.sent :: SoundMessage(m)
  }

  lemma StepKeepsSafe<R(!new)>(first: Address, blank: Node<R>, s: System<R>, a: Action<R>, t: System<R>)
    requires Safe(s) && Step(first, blank, s, a, t)
    ensures Safe(t)
  {
    hide SoundView, SoundMessage, Reacts, Next, Extra;
    ReactionIsSound(first, a.radius, blank, s.views[a.at], a.event, a.told, a.list);
  }

  /** In every reachable state the removal of a node reports exactly whether the view has changed:
      there is no node without a record of its superior, for which this would fail. */
  lemma RemovalIsReported<R(!new)>(first: Address, blank: Node<R>, states: seq<System<R>>, actions: seq<Action<R>>,
                                   i: nat, x: Address, a: Address)
    requires Run(first, blank, states, actions) && i < |states| && x in states[i].views && a != NOWHERE
    ensures var v := states[i].views[x]; v.ReportsRemoval(a) <==> v.Without(a) != v
  {
    SuperiorsNeverLoop(first, blank, states, actions, i);
    RemovalShows(states[i].views[x], a);
  }

  lemma RemovalShows<R>(v: View<R>, a: Address)
    requires v.Valid() && a != NOWHERE
    ensures (v.ReportsRemoval(a) <==> v.Without(a) != v) <==> (v.me.superior == a ==> a in v.nodes)
  {
    var m := v.nodes;
    if a in m && m[a].superior == v.me.address { assert v.Without(a).nodes[a] != m[a]; }
  }

  /** The superiors of all nodes. */
  ghost function Superiors<R>(s: System<R>): Table<R> {
    map x | x in s.views :: s.views[x].me
  }

  /** Whatever is lost, repeated or overtaken: no superiors form a cycle, neither all nodes' own ones
      nor those in one node's table, and no node rejects a probe. */
  lemma {:induction false} SuperiorsNeverLoop<R(!new)>(first: Address, blank: Node<R>, states: seq<System<R>>,
                                                       actions: seq<Action<R>>, i: nat)
    requires Run(first, blank, states, actions) && i < |states|
    ensures var s := states[i];
            && Safe(s) && Acyclic(Superiors(s))
            && (forall x <- s.views :: Acyclic(s.views[x].nodes[x := s.views[x].me]))
            && (forall m <- s.sent ::
                  m.Probe? && m.target in s.views ==> Judge(s.views[m.target], m) != RejectSubordinate)
  {
    var s := states[i];
    if 0 < i {
      SuperiorsNeverLoop(first, blank, states, actions, i - 1);
      StepKeepsSafe(first, blank, states[i - 1], actions[i - 1], s);
    }
    LowerIsAcyclic(Superiors(s));
    forall x | x in s.views ensures Acyclic(s.views[x].nodes[x := s.views[x].me]) { SoundIsAcyclic(s.views[x]); }
    forall m | m in s.sent && m.Probe? && m.target in s.views ensures Judge(s.views[m.target], m) != RejectSubordinate {
      NeverRejects(s.views[m.target], m);
    }
  }

  // ---------------------------------------------------------------------------
  // A run in which a superior is taken back.

  /** Without any steps up or down a node reports itself only. */
  lemma ReportAlone<R>(v: View<R>)
    ensures Report(v, 0, [v.me])
  {
    assert [v.me][..1] == [v.me] && [v.me][0] == v.me;
  }

  lemma LearnsOne<R>(v: View<R>, n: Node<R>)
    ensures v.Merged([n]) == v.Learn(n)
  {
    assert [n][..0] == [];
    assert v.Merged([]) == v;
  }

  /** A node in the state `v` may react to the event in this way, and is in the state `w` then. */
  ghost predicate Does<R(!new)>(blank: Node<R>, v: View<R>, e: Event<R>, told: set<Message<R>>, list: seq<Node<R>>,
                                w: View<R>, extra: set<Message<R>>) {
    Reacts(1, 0, blank, v, e, told, list) && Next(v, e, blank) == w && Extra(v, e, list) == extra
  }

  lemma ProbeIsSent<R(!new)>(v: View<R>, to: Address, blank: Node<R>)
    requires 1 <= to < v.me.address
    ensures Does(blank, v, Event.Discover(to), {}, [], v, {Probe(v.me.address, to, v.me.superior, to, [v.me])})
  {
  }

  /** A node without any records takes in its first subordinate, and there is nobody else to tell. */
  lemma SubordinateIsAdded<R(!new)>(v: View<R>, n: Node<R>, old_: Address, blank: Node<R>)
    requires v.nodes == map[] && n.address != v.me.address && n.address != v.me.superior && old_ != v.me.address
    ensures var b := v.me.address;
            Does(blank, v, Receive(Probe(n.address, b, old_, b, [n])), {}, [v.me],
                 View(v.me, map[n.address := n.(superior := b)]), {Reply(b, n.address, old_, b, true, [v.me])})
  {
    var b := v.me.address;
    var p := Probe(n.address, b, old_, b, [n]);
    LearnsOne(v, n);
    assert Judge(v, p) == AddSubordinate;
    var w := Next(v, Receive(p), blank);
    ReportAlone(w);
    assert {} == GossipTo(w.me.address, w.nodes.Keys, n.address, [w.me]);
  }

  lemma SuperiorIsTaken<R(!new)>(v: View<R>, n: Node<R>, old_: Address, new_: Address, blank: Node<R>)
    returns (told: set<Message<R>>)
    requires n.address != v.me.address && n.address != v.me.superior && old_ != new_
    ensures Does(blank, v, Receive(Reply(n.address, v.me.address, old_, new_, true, [n])), told, [],
                 v.Learn(n).WithSuperior(n.address),
                 if old_ != NOWHERE then {Probe(v.me.address, old_, old_, new_, [])} else {})
  {
    var e := Receive(Reply(n.address, v.me.address, old_, new_, true, [n]));
    LearnsOne(v, n);
    var w := Next(v, e, blank);
    ReportAlone(w);
    told := GossipTo(w.me.address, w.nodes.Keys, n.address, [w.me]);
  }

  lemma NoticeIsAnswered<R(!new)>(v: View<R>, a: Address, new_: Address, blank: Node<R>)
    requires a != v.me.superior && new_ != v.me.address
    ensures var b := v.me.address;
            Does(blank, v, Receive(Probe(a, b, b, new_, [])), {}, [v.me], v, {Reply(b, a, b, new_, true, [v.me])})
  {
    ReportAlone(v);
  }

  /** One node reacts: its view becomes `w`, and `extra` is sent besides the gossip. */
  lemma Act<R(!new)>(s: System<R>, a: Action<R>, w: View<R>, extra: set<Message<R>>, blank: Node<R>)
    returns (t: System<R>)
    requires a.at in s.views && (a.event.Receive? ==> a.event.m in s.sent) && a.radius == 0
    requires Does(blank, s.views[a.at], a.event, a.told, a.list, w, extra)
    ensures Step(1, blank, s, a, t) && t.views == s.views[a.at := w] && s.sent <= t.sent && extra <= t.sent
  {
    t := System(s.views[a.at := w], s.sent + (a.told + extra));
  }

  /** A node probes another one that knows nobody, and is answered. */
  lemma ProbeIsAnswered<R(!new)>(s: System<R>, x: Address, b: Address, blank: Node<R>)
    returns (s1: System<R>, a1: Action<R>, s2: System<R>, a2: Action<R>)
    requires Strange(s, x, b)
    ensures Step(1, blank, s, a1, s1) && Step(1, blank, s1, a2, s2)
    ensures var v, w := s.views[x], s.views[b];
            && s2.views == s.views[b := View(w.me, map[x := v.me.(superior := b)])]
            && Reply(b, x, v.me.superior, b, true, [w.me]) in s2.sent
  {
    var v, w := s.views[x], s.views[b];
    hide Does, Step;
    ProbeIsSent(v, b, blank);
    var p := Probe(x, b, v.me.superior, b, [v.me]);
    a1 := Action(x, Event.Discover(b), 0, {}, []);
    s1 := Act(s, a1, v, {p}, blank);
    SubordinateIsAdded(w, v.me, v.me.superior, blank);
    var reply := Reply(b, x, v.me.superior, b, true, [w.me]);
    a2 := Action(b, Receive(p), 0, {}, [w.me]);
    s2 := Act(s1, a2, View(w.me, map[x := v.me.(superior := b)]), {reply}, blank);
  }

  /** The node `b` knows nobody, and `x` may probe it. */
  ghost predicate Strange<R>(s: System<R>, x: Address, b: Address) {
    && x in s.views && s.views[x].me.address == x && b in s.views && s.views[b].me.address == b
    && 1 <= b < x && s.views[b].nodes == map[] && s.views[b].me.superior == NOWHERE && s.views[x].me.superior != b
  }

  lemma AnswerIsAccepted<R(!new)>(s: System<R>, x: Address, n: Node<R>, old_: Address, new_: Address, blank: Node<R>)
    returns (t: System<R>, a: Action<R>)
    requires x in s.views && s.views[x].me.address == x && Reply(n.address, x, old_, new_, true, [n]) in s.sent
    requires n.address != x && n.address != s.views[x].me.superior && old_ != new_
    ensures Step(1, blank, s, a, t) && t.views == s.views[x := s.views[x].Learn(n).WithSuperior(n.address)]
    ensures old_ != NOWHERE ==> Probe(x, old_, old_, new_, []) in t.sent
  {
    var v := s.views[x];
    hide Does, Step, View.Learn, View.WithSuperior;
    var told := SuperiorIsTaken(v, n, old_, new_, blank);
    a := Action(x, Receive(Reply(n.address, x, old_, new_, true, [n])), 0, told, []);
    var notice := if old_ != NOWHERE then {Probe(x, old_, old_, new_, [])} else {};
    t := Act(s, a, v.Learn(n).WithSuperior(n.address), notice, blank);
  }

  lemma ThreeSteps<R(!new)>(blank: Node<R>, s: System<R>, states: seq<System<R>>, actions: seq<Action<R>>)
    requires |states| == |actions| == 3 && Step(1, blank, s, actions[0], states[0])
    requires forall i | 1 <= i < 3 :: Step(1, blank, states[i - 1], actions[i], states[i])
    ensures Steps(blank, s, states, actions)
  {
    hide Step;
  }

  /** Then it is the superior. */
  lemma SuperiorIsFound<R(!new)>(s: System<R>, x: Address, b: Address, blank: Node<R>)
    returns (states: seq<System<R>>, actions: seq<Action<R>>)
    requires Strange(s, x, b)
    ensures Steps(blank, s, states, actions) && |states| == 3
    ensures var v, w := s.views[x], s.views[b];
            && states[2].views ==
                 s.views[b := View(w.me, map[x := v.me.(superior := b)])][x := v.Learn(w.me).WithSuperior(b)]
            && (v.me.superior != NOWHERE ==> Probe(x, v.me.superior, v.me.superior, b, []) in states[2].sent)
  {
    var v, w := s.views[x], s.views[b];
    hide Step, Steps, View.Learn, View.WithSuperior;
    var s1, a1, s2, a2 := ProbeIsAnswered(s, x, b, blank);
    var s3, a3 := AnswerIsAccepted(s2, x, w.me, v.me.superior, b, blank);
    states, actions := [s1, s2, s3], [a1, a2, a3];
    ThreeSteps(blank, s, states, actions);
  }

  /** The old superior is notified and answers, and is the superior again. */
  lemma NoticeTakesBack<R(!new)>(s: System<R>, x: Address, b: Address, c: Address, blank: Node<R>)
    returns (states: seq<System<R>>, actions: seq<Action<R>>)
    requires x in s.views && s.views[x].me.address == x && b in s.views && s.views[b].me.address == b
    requires Probe(x, b, b, c, []) in s.sent && b != x && b != c && b != NOWHERE
    requires s.views[b].me.superior != x && s.views[x].me.superior != b
    ensures Steps(blank, s, states, actions) && |states| == 2
    ensures states[1].views == s.views[x := s.views[x].Learn(s.views[b].me).WithSuperior(b)]
    ensures Probe(x, b, b, c, []) in states[1].sent
  {
    var v, w, notice := s.views[x], s.views[b], Probe(x, b, b, c, []);
    hide Does, Step, View.Learn, View.WithSuperior;
    NoticeIsAnswered(w, x, c, blank);
    var a1 := Action(b, Receive(notice), 0, {}, [w.me]);
    var s1 := Act(s, a1, w, {Reply(b, x, b, c, true, [w.me])}, blank);
    var s2, a2 := AnswerIsAccepted(s1, x, w.me, b, c, blank);
    states, actions := [s1, s2], [a1, a2];
  }

  /** The steps lead from `s` through `states`. */
  ghost predicate Steps<R(!new)>(blank: Node<R>, s: System<R>, states: seq<System<R>>, actions: seq<Action<R>>) {
    && |states| == |actions|
    && forall i | 0 <= i < |actions| :: Step(1, blank, ([s] + states)[i], actions[i], states[i])
  }

  lemma RunGoesOn<R(!new)>(blank: Node<R>, states: seq<System<R>>, actions: seq<Action<R>>,
                           more: seq<System<R>>, then_: seq<Action<R>>)
    requires Run(1, blank, states, actions) && more != [] && Steps(blank, states[|states| - 1], more, then_)
    ensures Run(1, blank, states + more, actions + then_)
  {
    hide Step, Start;
    var n := |actions|;
    forall i | 0 <= i < |actions + then_|
      ensures Step(1, blank, (states + more)[i], (actions + then_)[i], (states + more)[i + 1])
    {
      if n <= i {
        var j := i - n;
        assert Step(1, blank, ([states[n]] + more)[j], then_[j], more[j]);
      }
    }
  }

  /** Three nodes that know nobody. */
  ghost function Strangers<R>(r: R): System<R> {
    var n1, n2, n3 := Node(1, NOWHERE, r, 0), Node(2, NOWHERE, r, 0), Node(3, NOWHERE, r, 0);
    System(map[1 := View(n1, map[]), 2 := View(n2, map[]), 3 := View(n3, map[])], {})
  }

  lemma StrangersStart<R(!new)>(blank: Node<R>, r: R)
    ensures Run(1, blank, [Strangers(r)], [])
  {
    hide Step;
  }

  /** The node 3 takes 2 as its superior. */
  lemma FirstSuperior<R(!new)>(blank: Node<R>, r: R) returns (states: seq<System<R>>, actions: seq<Action<R>>)
    ensures Steps(blank, Strangers(r), states, actions) && |states| == 3
    ensures states[2].views == map[1 := View(Node(1, NOWHERE, r, 0), map[]),
                                   2 := View(Node(2, NOWHERE, r, 0), map[3 := Node(3, 2, r, 0)]),
                                   3 := View(Node(3, 2, r, 1), map[2 := Node(2, NOWHERE, r, 0)])]
  {
    hide Steps;
    states, actions := SuperiorIsFound(Strangers(r), 3, 2, blank);
  }

  /** Then it takes 1, and then has 2 again. */
  lemma SecondSuperior<R(!new)>(blank: Node<R>, r: R, s: System<R>)
    returns (states: seq<System<R>>, actions: seq<Action<R>>, states2: seq<System<R>>, actions2: seq<Action<R>>)
    requires s.views == map[1 := View(Node(1, NOWHERE, r, 0), map[]),
                            2 := View(Node(2, NOWHERE, r, 0), map[3 := Node(3, 2, r, 0)]),
                            3 := View(Node(3, 2, r, 1), map[2 := Node(2, NOWHERE, r, 0)])]
    ensures Steps(blank, s, states, actions) && |states| == 3 && Steps(blank, states[2], states2, actions2)
            && |states2| == 2
    ensures states[2].views.Keys == states2[1].views.Keys == {1, 2, 3}
    ensures states[2].views[3].me.superior == 1 && states2[1].views[3].me.superior == 2
    ensures Probe(3, 2, 2, 1, []) in states2[1].sent
  {
    hide Steps;
    states, actions := SuperiorIsFound(s, 3, 1, blank);
    states2, actions2 := NoticeTakesBack(states[2], 3, 2, 1, blank);
  }

  /** There is such a run, and at its end the notice that has led there may be received again. */
  lemma SuperiorIsTakenBackInRun<R(!new)>(blank: Node<R>, r: R)
    returns (states: seq<System<R>>, actions: seq<Action<R>>)
    ensures Run(1, blank, states, actions) && |states| == 9
    ensures forall k | k in {3, 6, 8} :: 3 in states[k].views
    ensures states[3].views[3].me.superior == 2 && states[6].views[3].me.superior == 1
    ensures states[8].views[3].me.superior == 2 && Probe(3, 2, 2, 1, []) in states[8].sent
  {
    var start := Strangers(r);
    var ss, as_ := FirstSuperior(blank, r);
    var ts, bs, us, cs := SecondSuperior(blank, r, ss[2]);
    StrangersStart(blank, r);
    hide Run, Steps, Strangers;
    states, actions := RunInParts(blank, start, ss, as_, ts, bs, us, cs);
  }

  lemma RunInParts<R(!new)>(blank: Node<R>, s: System<R>, ss: seq<System<R>>, as_: seq<Action<R>>,
                            ts: seq<System<R>>, bs: seq<Action<R>>, us: seq<System<R>>, cs: seq<Action<R>>)
    returns (states: seq<System<R>>, actions: seq<Action<R>>)
    requires Run(1, blank, [s], []) && |ss| == 3 && |ts| == 3 && |us| == 2
    requires Steps(blank, s, ss, as_) && Steps(blank, ss[2], ts, bs) && Steps(blank, ts[2], us, cs)
    ensures Run(1, blank, states, actions) && |states| == 9
    ensures states[3] == ss[2] && states[6] == ts[2] && states[8] == us[1]
  {
    hide Run, Steps;
    RunGoesOn(blank, [s], [], ss, as_);
    RunGoesOn(blank, [s] + ss, [] + as_, ts, bs);
    RunGoesOn(blank, [s] + ss + ts, [] + as_ + bs, us, cs);
    states, actions := [s] + ss + ts + us, [] + as_ + bs + cs;
  }

  // ---------------------------------------------------------------------------
  // Only a node itself makes new versions of its record.

  ghost predicate SameFact<R>(a: Node<R>, b: Node<R>) {
    a.address == b.address && a.version == b.version && a.resources == b.resources
  }

  ghost predicate Knows<R>(v: View<R>, n: Node<R>) {
    n == v.me || (n.address in v.nodes && v.nodes[n.address] == n)
  }

  /** The record is held by a node or on its way. */
  ghost predicate Occurs<R>(s: System<R>, n: Node<R>) {
    (exists x <- s.views :: Knows(s.views[x], n)) || (exists m <- s.sent :: n in m.nodes)
  }

  lemma NextOwn<R>(v: View<R>, e: Event<R>, blank: Node<R>)
    ensures var w := Next(v, e, blank);
            && v.me.version <= w.me.version <= v.me.version + 1 && w.me.address == v.me.address
            && (v.me.version == w.me.version < MAX_VERSION ==> SameFact(v.me, w.me))
  {
    if e.Receive? { MergedIsLatest(v, e.m.nodes, 0); }
  }

  /** Every record in a table was there before or came with the message, up to its superior. */
  lemma NextFact<R>(v: View<R>, e: Event<R>, blank: Node<R>, k: Address) returns (n: Node<R>)
    requires SoundView(v) && (e.Receive? ==> SoundMessage(e.m) && e.m.target == v.me.address)
    requires k in Next(v, e, blank).nodes
    ensures SameFact(Next(v, e, blank).nodes[k], n)
    ensures Knows(v, n) || (e.Receive? && n in e.m.nodes)
  {
    if !e.Receive? || Next(v, e, blank).nodes == v.nodes {
      n := v.nodes[k];
    } else {
      var list := e.m.nodes;
      var w := v.Merged(list);
      MergedIsLatest(v, list, k);
      if list != [] {
        assert list[0] in list;
        MergedIsLatest(v, list, list[0].address);
      }
      hide View.Merged;
      if e.m.Probe? {
        assert Next(v, e, blank).nodes[k].(superior := NOWHERE) == w.nodes[k].(superior := NOWHERE);
      }
      n := w.nodes[k];
    }
  }

  lemma ReportFacts<R>(v: View<R>, radius: int, list: seq<Node<R>>, n: Node<R>)
    requires v.Valid() && Report(v, radius, list) && n in list
    ensures Knows(v, n)
  {
    var up := Ancestors(v.nodes, v.me, radius);
    AncestorsKnown(v.nodes, v.me, radius);
    assert list == list[..|list| - |up|] + up;
  }

  /** All that is sent is known to the sender. */
  lemma SentFacts<R(!new)>(first: Address, radius: int, blank: Node<R>, v: View<R>, e: Event<R>,
                           told: set<Message<R>>, list: seq<Node<R>>, m: Message<R>, n: Node<R>)
    requires SoundView(v) && (e.Receive? ==> SoundMessage(e.m)) && Reacts(first, radius, blank, v, e, told, list)
    requires m in told + Extra(v, e, list) && n in m.nodes
    ensures Knows(Next(v, e, blank), n)
  {
    var w := Next(v, e, blank);
    NextIsSound(v, e, blank);
    hide Report;
    if m in told {
      var l :| Report(w, radius, l) && told == GossipTo(w.me.address, w.nodes.Keys, Ignored(e), l);
      ReportFacts(w, radius, l, n);
    } else if e.Receive? && e.m.Probe? {
      ReportFacts(w, radius, list, n);
    }
  }

  /** No record of a node is newer than the node's own, and equal versions carry equal resources
      as long as the version counter is not exhausted. */
  ghost predicate Coherent<R(!new)>(s: System<R>) {
    && (forall n | Occurs(s, n) :: n.address in s.views && n.version <= s.views[n.address].me.version)
    && (forall a, b | Occurs(s, a) && Occurs(s, b) && a.address == b.address && a.version == b.version < MAX_VERSION ::
          a.resources == b.resources)
  }

  /** What occurs after a step is the new own record of the acting node or occurred before. */
  lemma StepFact<R(!new)>(first: Address, blank: Node<R>, s: System<R>, a: Action<R>, t: System<R>, n: Node<R>)
    returns (o: Node<R>)
    requires Safe(s) && Step(first, blank, s, a, t) && Occurs(t, n)
    ensures SameFact(n, o) && (o == t.views[a.at].me || Occurs(s, o))
  {
    var v, w := s.views[a.at], t.views[a.at];
    hide Reacts, Next, Extra, SoundView, SoundMessage;
    o := n;
    if !Occurs(s, n) && n != w.me {
      assert Knows(w, n) by {
        if m :| m in t.sent && n in m.nodes {
          SentFacts(first, a.radius, blank, v, a.event, a.told, a.list, m, n);
        } else {
          var x :| x in t.views && Knows(t.views[x], n);
        }
      }
      TargetIs(first, a.radius, blank, v, a.event, a.told, a.list);
      o := NextFact(v, a.event, blank, n.address);
    }
  }

  lemma TargetIs<R(!new)>(first: Address, radius: int, blank: Node<R>, v: View<R>, e: Event<R>,
                          told: set<Message<R>>, list: seq<Node<R>>)
    requires Reacts(first, radius, blank, v, e, told, list)
    ensures e.Receive? ==> e.m.target == v.me.address
  {
  }

  lemma StepKeepsCoherent<R(!new)>(first: Address, blank: Node<R>, s: System<R>, a: Action<R>, t: System<R>)
    requires Safe(s) && Coherent(s) && Step(first, blank, s, a, t)
    ensures Coherent(t)
  {
    var v, w := s.views[a.at], t.views[a.at];
    NextOwn(v, a.event, blank);
    assert Occurs(s, v.me);
    hide Reacts, Next, Extra, SoundView, SoundMessage, Occurs;
    forall n | Occurs(t, n) ensures n.address in t.views && n.version <= t.views[n.address].me.version {
      var o := StepFact(first, blank, s, a, t, n);
    }
    forall b, c | Occurs(t, b) && Occurs(t, c) && b.address == c.address && b.version == c.version < MAX_VERSION
      ensures b.resources == c.resources
    {
      var o := StepFact(first, blank, s, a, t, b);
      var p := StepFact(first, blank, s, a, t, c);
    }
  }

  lemma {:induction false} AlwaysCoherent<R(!new)>(first: Address, blank: Node<R>, states: seq<System<R>>,
                                                   actions: seq<Action<R>>, i: nat)
    requires Run(first, blank, states, actions) && i < |states|
    ensures Coherent(states[i])
  {
    if 0 < i {
      var h := i - 1;
      assert Step(first, blank, states[h], actions[h], states[i]);
      hide Step, Safe, Coherent, Acyclic, Judge;
      AlwaysCoherent(first, blank, states, actions, h);
      SuperiorsNeverLoop(first, blank, states, actions, h);
      StepKeepsCoherent(first, blank, states[h], actions[h], states[i]);
    }
  }

  /** No node ever forgets another one or goes back to an older record of it. */
  lemma NextIsNoOlder<R>(v: View<R>, e: Event<R>, blank: Node<R>, k: Address)
    requires SoundView(v) && (e.Receive? ==> SoundMessage(e.m) && e.m.target == v.me.address)
    ensures v.VersionOf(k) <= Next(v, e, blank).VersionOf(k)
  {
    if e.Receive? {
      MergedIsLatest(v, e.m.nodes, k);
      if e.m.nodes != [] {
        assert e.m.nodes[0] in e.m.nodes;
        MergedIsLatest(v, e.m.nodes, e.m.nodes[0].address);
      }
    }
  }

  lemma StepIsNoOlder<R(!new)>(first: Address, blank: Node<R>, s: System<R>, a: Action<R>, t: System<R>,
                               x: Address, k: Address)
    requires Safe(s) && Step(first, blank, s, a, t) && x in s.views
    ensures t.views.Keys == s.views.Keys
    ensures s.views[x].me.version <= t.views[x].me.version && s.views[x].VersionOf(k) <= t.views[x].VersionOf(k)
  {
    var v := s.views[a.at];
    hide Next, Extra, SoundView, SoundMessage;
    TargetIs(first, a.radius, blank, v, a.event, a.told, a.list);
    hide Reacts;
    NextOwn(v, a.event, blank);
    NextIsNoOlder(v, a.event, blank, k);
  }

  lemma {:induction false} VersionsNeverDecrease<R(!new)>(first: Address, blank: Node<R>, states: seq<System<R>>,
                                                          actions: seq<Action<R>>, i: nat, j: nat,
                                                          x: Address, k: Address)
    requires Run(first, blank, states, actions) && i <= j < |states| && x in states[i].views
    ensures states[i].views.Keys == states[j].views.Keys
    ensures states[i].views[x].me.version <= states[j].views[x].me.version
    ensures states[i].views[x].VersionOf(k) <= states[j].views[x].VersionOf(k)
    decreases j
  {
    if i < j {
      var h := j - 1;
      VersionsNeverDecrease(first, blank, states, actions, i, h, x, k);
      SuperiorsNeverLoop(first, blank, states, actions, h);
      assert Step(first, blank, states[h], actions[h], states[j]);
      hide Run, Step, Safe, Acyclic, Judge;
      StepIsNoOlder(first, blank, states[h], actions[h], states[j], x, k);
    }
  }

  /** Two messages may overtake each other: in either order a node ends up with the same nodes,
      versions and resources. */
  lemma OrderDoesNotMatter<R(!new)>(first: Address, blank: Node<R>, states: seq<System<R>>, actions: seq<Action<R>>,
                                    i: nat, x: Address, m: Message<R>, n: Message<R>, k: Address)
    requires Run(first, blank, states, actions) && i < |states|
    requires x in states[i].views && m in states[i].sent && n in states[i].sent
    requires forall y <- states[i].views :: states[i].views[y].me.version < MAX_VERSION
    ensures var v := states[i].views[x];
            var w, u := v.Merged(m.nodes).Merged(n.nodes), v.Merged(n.nodes).Merged(m.nodes);
            && (k in w.nodes <==> k in u.nodes)
            && (k in w.nodes ==> SameFact(w.nodes[k], u.nodes[k]))
  {
    var s, v := states[i], states[i].views[x];
    SuperiorsNeverLoop(first, blank, states, actions, i);
    AlwaysCoherent(first, blank, states, actions, i);
    MergedTwice(v, m.nodes, n.nodes);
    MergedTwice(v, n.nodes, m.nodes);
    var one, two := m.nodes + n.nodes, n.nodes + m.nodes;
    var all := v.nodes.Values + set a <- one;
    assert Consistent(all) by {
      forall a | a in all ensures Occurs(s, a) {
        if a in v.nodes.Values {
          var y :| y in v.nodes && v.nodes[y] == a;
          assert Knows(v, a);
        }
      }
    }
    MergeOrder(v, one, two, k);
    MergedIsLatest(v, one, k);
    MergedIsLatest(v, two, k);
  }

  // ---------------------------------------------------------------------------
  // News travels.

  function RecordOf<R(==)>(v: View<R>, k: Address): Node<R>
    requires k == v.me.address || k in v.nodes
  {
    if k == v.me.address then v.me else v.nodes[k]
  }

  /** The node itself, and those that are at most `d` superiors below or above it. */
  ghost predicate Near<R>(v: View<R>, k: Address, d: int) {
    var x, all := v.me.address, v.nodes[v.me.address := v.me];
    k == x || (k in v.nodes && exists i: nat | 1 <= i <= d :: Climb(v.nodes, k, i) == x || Climb(all, x, i) == k)
  }

  /** Every known node but one is sent a message with the records of all nodes near by. */
  ghost predicate Spreads<R(!new)>(v: View<R>, radius: int, ignored: Address, out: set<Message<R>>) {
    forall y <- v.nodes | y != ignored ::
      exists m <- out ::
        m.Gossip? && m.source == v.me.address && m.target == y
        && forall k | Near(v, k, radius) :: RecordOf(v, k) in m.nodes
  }

  /** Who stands `i` superiors above a node is among its ancestors. */
  lemma {:induction false} AmongAncestors<R>(v: View<R>, a: Node<R>, k: Address, i: nat, d: int)
    requires SoundView(v) && SoundNode(a) && a.address <= v.me.address && k in v.nodes && 1 <= i <= d
    requires var all := v.nodes[v.me.address := v.me];
             a.address in all && all[a.address] == a && Climb(all, a.address, i) == k
    ensures v.nodes[k] in Ancestors(v.nodes, a, d)
    decreases i
  {
    var all := v.nodes[v.me.address := v.me];
    ClimbFrom(all, a.address, i);
    if i == 1 {
      assert Climb(all, a.superior, 0) == a.superior;
    } else {
      if a.superior !in all { ClimbOut(all, a.superior, i - 1); }
      AmongAncestors(v, v.nodes[a.superior], k, i - 1, d - 1);
    }
  }

  lemma ReportIsComplete<R>(v: View<R>, radius: int, list: seq<Node<R>>, k: Address)
    requires SoundView(v) && Report(v, radius, list) && Near(v, k, radius)
    ensures RecordOf(v, k) in list
  {
    var x, all, up := v.me.address, v.nodes[v.me.address := v.me], Ancestors(v.nodes, v.me, radius);
    var n := |list| - |up|;
    if k == x {
      assert list[0] in list;
    } else {
      var i: nat :| 1 <= i <= radius && (Climb(v.nodes, k, i) == x || Climb(all, x, i) == k);
      if Climb(v.nodes, k, i) == x {
        assert k in Addresses(list[..n]);
        var p :| 0 <= p < n && list[..n][p].address == k;
        assert list[p] == v.nodes[k];
      } else {
        AmongAncestors(v, v.me, k, i, radius);
        assert v.nodes[k] in list[n..];
      }
    }
  }

  lemma TellsSpreads<R(!new)>(v: View<R>, radius: int, ignored: Address, out: set<Message<R>>)
    requires SoundView(v) && Tells(true, v, radius, ignored, out)
    ensures Spreads(v, radius, ignored, out)
  {
    var list :| Report(v, radius, list) && out == GossipTo(v.me.address, v.nodes.Keys, ignored, list);
    forall k | Near(v, k, radius) ensures RecordOf(v, k) in list { ReportIsComplete(v, radius, list, k); }
    hide Near, Report, SoundView;
    forall y | y in v.nodes && y != ignored
      ensures exists m <- out ::
                m.Gossip? && m.source == v.me.address && m.target == y
                && forall k | Near(v, k, radius) :: RecordOf(v, k) in m.nodes
    {
      assert Gossip(v.me.address, y, list) in out;
    }
  }

  /** In every run: when a node has a newer record of some node near by, be it its own or another one,
      all nodes that it knows, but for the one that it has the news from, are sent this record. */
  lemma NewsTravels<R(!new)>(first: Address, blank: Node<R>, states: seq<System<R>>, actions: seq<Action<R>>,
                             i: nat, x: Address, k: Address, y: Address)
    requires Run(first, blank, states, actions) && i < |actions|
    requires x == actions[i].at && x in states[i].views && x in states[i + 1].views
    requires var v, w := states[i].views[x], states[i + 1].views[x];
             && Near(w, k, actions[i].radius) && y in w.nodes
             && (if k == x then v.me.version < w.me.version else v.VersionOf(k) < w.VersionOf(k))
    requires match actions[i].event
             case Receive(m) => y != m.source
             case ClientRemoved(a) => y != a
             case _ => true
    ensures exists m <- states[i + 1].sent ::
              m.Gossip? && m.source == x && m.target == y && RecordOf(states[i + 1].views[x], k) in m.nodes
  {
    SuperiorsNeverLoop(first, blank, states, actions, i);
    SuperiorsNeverLoop(first, blank, states, actions, i + 1);
    var a, v, w := actions[i], states[i].views[x], states[i + 1].views[x];
    assert Step(first, blank, states[i], a, states[i + 1]);
    hide Run, Near, Acyclic, Judge, SoundView, Next, Extra;
    IgnoresTheSender(v, a.event);
    TellsSpreads(w, a.radius, Ignored(a.event), a.told);
    hide Spreads;
    var m := SpreadTo(w, a.radius, Ignored(a.event), a.told, y, k);
  }

  /** Whoever probes a node is answered with the records of all nodes near it. */
  lemma AnswerTells<R(!new)>(first: Address, blank: Node<R>, states: seq<System<R>>, actions: seq<Action<R>>,
                             i: nat, x: Address, k: Address)
    requires Run(first, blank, states, actions) && i < |actions|
    requires x == actions[i].at && x in states[i + 1].views && Near(states[i + 1].views[x], k, actions[i].radius)
    requires actions[i].event.Receive? && actions[i].event.m.Probe?
    ensures exists m <- states[i + 1].sent ::
              m.Reply? && m.source == x && m.target == actions[i].event.m.source && m.success
              && RecordOf(states[i + 1].views[x], k) in m.nodes
  {
    SuperiorsNeverLoop(first, blank, states, actions, i);
    SuperiorsNeverLoop(first, blank, states, actions, i + 1);
    var a, v, w := actions[i], states[i].views[x], states[i + 1].views[x];
    assert Step(first, blank, states[i], a, states[i + 1]);
    hide Run, Near, Acyclic, SoundView, Next, Report, Tells;
    ReportIsComplete(w, a.radius, a.list, k);
    assert Reply(x, a.event.m.source, a.event.m.oldSuperior, a.event.m.newSuperior, true, a.list)
           in Extra(v, a.event, a.list);
  }

  lemma IgnoresTheSender<R>(v: View<R>, e: Event<R>)
    requires e.Receive? ==> SoundMessage(e.m)
    ensures Ignored(e) == match e case Receive(m) => m.source case ClientRemoved(a) => a case _ => NOWHERE
  {
  }

  lemma SpreadTo<R(!new)>(v: View<R>, radius: int, ignored: Address, out: set<Message<R>>, y: Address, k: Address)
    returns (m: Message<R>)
    requires Spreads(v, radius, ignored, out) && y in v.nodes && y != ignored && Near(v, k, radius)
    ensures m in out && m.Gossip? && m.source == v.me.address && m.target == y && RecordOf(v, k) in m.nodes
  {
    m :| m in out && m.Gossip? && m.source == v.me.address && m.target == y
         && forall k | Near(v, k, radius) :: RecordOf(v, k) in m.nodes;
  }

  /** Whoever has received gossip knows what it says, then and ever after. */
  lemma NewsArrives<R(!new)>(first: Address, blank: Node<R>, states: seq<System<R>>, actions: seq<Action<R>>,
                             j: nat, h: nat, y: Address, m: Message<R>, n: Node<R>)
    requires Run(first, blank, states, actions) && j < h < |states|
    requires actions[j].at == y && actions[j].event == Receive(m) && m.Gossip? && n in m.nodes && n.address != y
    ensures y in states[h].views && n.version <= states[h].views[y].VersionOf(n.address)
  {
    SuperiorsNeverLoop(first, blank, states, actions, j);
    assert Step(first, blank, states[j], actions[j], states[j + 1]);
    MergedIsLatest(states[j].views[y], m.nodes, n.address);
    hide SoundView, SoundMessage, Reacts, Run, Acyclic, Judge;
    VersionsNeverDecrease(first, blank, states, actions, j + 1, h, y, n.address);
  }

  /** Which changes of the own record are news to the others: another superior and other resources. The
      loss of a superior makes no new version, so nobody takes it over. */
  lemma OwnChangeIsNews<R>(v: View<R>, e: Event<R>, blank: Node<R>)
    requires SoundView(v) && (e.Receive? ==> SoundMessage(e.m) && e.m.target == v.me.address)
    requires v.me.version < MAX_VERSION
    ensures var w := Next(v, e, blank);
            if w.me.resources != v.me.resources || (w.me.superior != v.me.superior && w.me.superior != NOWHERE)
            then w.me.version == v.me.version + 1 else w.me.version == v.me.version
  {
    if e.Receive? {
      MergedIsLatest(v, e.m.nodes, 0);
      if e.m.Reply? { assert e.m.nodes[0] in e.m.nodes; }
    }
  }

  /** Without a new version nobody takes over what has changed. */
  lemma OldNewsIsIgnored<R>(v: View<R>, list: seq<Node<R>>)
    requires forall n <- list :: n.address != v.me.address ==> n.version <= v.VersionOf(n.address)
    ensures v.Merged(list) == v
  {
    MergeChanges(v, list);
  }

  /** After a probe the node that was asked to be the superior has the other one as a subordinate, and
      the one that was the superior has not, if the probe carries records. */
  lemma WhoAsksIsSubordinate<R>(v: View<R>, p: Message<R>, blank: Node<R>)
    requires SoundView(v) && p.Probe? && SoundMessage(p) && p.target == v.me.address && p.nodes != []
    requires p.oldSuperior != p.newSuperior
    ensures var w := Next(v, Receive(p), blank);
            && (p.newSuperior == v.me.address ==> p.source in w.nodes && w.nodes[p.source].superior == v.me.address)
            && (p.oldSuperior == v.me.address ==> p.source in w.nodes && w.nodes[p.source].superior != v.me.address)
  {
    assert p.nodes[0] in p.nodes;
    MergedIsLatest(v, p.nodes, p.source);
  }

  // ---------------------------------------------------------------------------
  // Gossip comes to rest.

  /** How many versions of the nodes in `ks` the view is behind. */
  ghost function GapAt<R>(s: System<R>, v: View<R>, ks: seq<Address>): int
    requires forall k <- ks :: k in s.views
  {
    if ks == [] then 0
    else (if ks[0] == v.me.address then 0 else s.views[ks[0]].me.version - v.VersionOf(ks[0])) + GapAt(s, v, ks[1..])
  }

  ghost function Gap<R>(s: System<R>, xs: seq<Address>, ks: seq<Address>): int
    requires forall k <- xs + ks :: k in s.views
  {
    if xs == [] then 0 else GapAt(s, s.views[xs[0]], ks) + Gap(s, xs[1..], ks)
  }

  /** The nodes of the network, each one once. */
  ghost predicate Listed<R>(s: System<R>, xs: seq<Address>) {
    (forall x :: x in xs <==> x in s.views) && NoneTwice(xs)
  }

  ghost predicate NoneTwice(xs: seq<Address>) {
    forall p, q | 0 <= p < q < |xs| :: xs[p] != xs[q]
  }

  lemma {:induction false} ListSize(xs: seq<Address>, keys: set<Address>)
    requires NoneTwice(xs) && forall x :: x in xs <==> x in keys
    ensures |xs| == |keys|
  {
    if xs == [] {
      assert keys == {};
    } else {
      forall x ensures x in xs[1..] <==> x in keys - {xs[0]} {
        if x in xs && x != xs[0] {
          var p :| 0 <= p < |xs| && xs[p] == x;
          assert xs[1..][p - 1] == x;
        }
      }
      assert xs[0] in keys;
      ListSize(xs[1..], keys - {xs[0]});
    }
  }

  lemma {:induction false} GapAtIsNatural<R(!new)>(s: System<R>, x: Address, ks: seq<Address>)
    requires Safe(s) && Coherent(s) && x in s.views && forall k <- ks :: k in s.views
    ensures 0 <= GapAt(s, s.views[x], ks)
  {
    if ks != [] {
      GapAtIsNatural(s, x, ks[1..]);
      var v, k := s.views[x], ks[0];
      if k in v.nodes {
        assert Knows(v, v.nodes[k]);
        assert Occurs(s, v.nodes[k]);
      }
    }
  }

  lemma {:induction false} GapIsNatural<R(!new)>(s: System<R>, xs: seq<Address>, ks: seq<Address>)
    requires Safe(s) && Coherent(s) && forall k <- xs + ks :: k in s.views
    ensures 0 <= Gap(s, xs, ks)
  {
    if xs != [] {
      GapAtIsNatural(s, xs[0], ks);
      GapIsNatural(s, xs[1..], ks);
    }
  }

  /** The network `t` differs from `s` only in that the node `x` knows more. */
  ghost predicate KnowsMore<R>(s: System<R>, t: System<R>, x: Address) {
    && t.views.Keys == s.views.Keys && x in s.views
    && (forall y <- s.views :: t.views[y].me == s.views[y].me && (y != x ==> t.views[y] == s.views[y]))
    && forall k :: s.views[x].VersionOf(k) <= t.views[x].VersionOf(k)
  }

  lemma {:induction false} GapAtDrops<R>(s: System<R>, t: System<R>, x: Address, y: Address, ks: seq<Address>)
    requires KnowsMore(s, t, x) && y in s.views && forall k <- ks :: k in s.views
    ensures GapAt(t, t.views[y], ks) <= GapAt(s, s.views[y], ks)
    ensures (exists k <- ks :: k != s.views[y].me.address && s.views[y].VersionOf(k) < t.views[y].VersionOf(k)) ==>
              GapAt(t, t.views[y], ks) < GapAt(s, s.views[y], ks)
  {
    if ks != [] {
      GapAtDrops(s, t, x, y, ks[1..]);
    }
  }

  lemma {:induction false} GapDrops<R>(s: System<R>, t: System<R>, x: Address, xs: seq<Address>, ks: seq<Address>)
    requires KnowsMore(s, t, x) && forall k <- xs + ks :: k in s.views
    ensures Gap(t, xs, ks) <= Gap(s, xs, ks)
    ensures x in xs && (exists k <- ks ::
                          k != s.views[x].me.address && s.views[x].VersionOf(k) < t.views[x].VersionOf(k)) ==>
              Gap(t, xs, ks) < Gap(s, xs, ks)
  {
    if xs != [] {
      GapAtDrops(s, t, x, xs[0], ks);
      GapDrops(s, t, x, xs[1..], ks);
    }
  }

  /** The network `t` differs from `s` only in the node `x`, which knows no less and may have made
      one new version of its own record. */
  ghost predicate Advances<R>(s: System<R>, t: System<R>, x: Address) {
    && t.views.Keys == s.views.Keys && x in s.views
    && (forall y <- s.views ::
          t.views[y].me.address == s.views[y].me.address == y && (y != x ==> t.views[y] == s.views[y]))
    && s.views[x].me.version <= t.views[x].me.version <= s.views[x].me.version + 1
    && forall k :: s.views[x].VersionOf(k) <= t.views[x].VersionOf(k)
  }

  lemma {:induction false} GapAtGrows<R>(s: System<R>, t: System<R>, x: Address, y: Address, ks: seq<Address>)
    requires Advances(s, t, x) && y in s.views && NoneTwice(ks) && forall k <- ks :: k in s.views
    ensures GapAt(t, t.views[y], ks) <= GapAt(s, s.views[y], ks) + if y != x && x in ks then 1 else 0
  {
    if ks != [] {
      GapAtGrows(s, t, x, y, ks[1..]);
      assert ks[0] !in ks[1..];
    }
  }

  /** The others are behind by at most one more version each. */
  lemma {:induction false} GapGrows<R>(s: System<R>, t: System<R>, x: Address, xs: seq<Address>, ks: seq<Address>)
    requires Advances(s, t, x) && NoneTwice(ks) && forall k <- xs + ks :: k in s.views
    ensures Gap(t, xs, ks) <= Gap(s, xs, ks) + |xs| - if x in xs then 1 else 0
  {
    if xs != [] {
      GapAtGrows(s, t, x, xs[0], ks);
      GapGrows(s, t, x, xs[1..], ks);
    }
  }

  lemma {:induction false} BroadcastSize<R>(me: Address, keys: set<Address>, list: seq<Node<R>>, out: set<Message<R>>)
    requires out == set k | k in keys :: Gossip(me, k, list)
    ensures |out| == |keys|
  {
    if keys != {} {
      var k :| k in keys;
      var rest := set j | j in keys - {k} :: Gossip(me, j, list);
      BroadcastSize(me, keys - {k}, list, rest);
      assert out == rest + {Gossip(me, k, list)};
    }
  }

  lemma ToldSize<R(!new)>(changed: bool, v: View<R>, radius: int, ignored: Address, out: set<Message<R>>)
    requires Tells(changed, v, radius, ignored, out)
    ensures |out| <= |v.nodes.Keys| && (!changed ==> out == {})
  {
    if changed {
      var list :| Report(v, radius, list) && out == GossipTo(v.me.address, v.nodes.Keys, ignored, list);
      var keys := set k | k in v.nodes && k != ignored;
      BroadcastSize(v.me.address, keys, list, out);
      SmallerSet(keys, v.nodes.Keys);
    }
  }

  ghost predicate SafeStep<R(!new)>(first: Address, blank: Node<R>, s: System<R>, a: Action<R>, t: System<R>) {
    Safe(s) && Coherent(s) && Step(first, blank, s, a, t)
  }

  predicate IsGossip<R>(e: Event<R>) {
    e.Receive? && e.m.Gossip?
  }

  ghost predicate GossipReceived<R(!new)>(first: Address, blank: Node<R>, s: System<R>, a: Action<R>, t: System<R>) {
    SafeStep(first, blank, s, a, t) && IsGossip(a.event)
  }

  lemma ToldToFew<R(!new)>(first: Address, blank: Node<R>, s: System<R>, a: Action<R>, t: System<R>)
    requires SafeStep(first, blank, s, a, t)
    ensures |a.told| <= |s.views.Keys|
  {
    var v, w := s.views[a.at], t.views[a.at];
    ToldSize(Changed(v, a.event, blank), w, a.radius, Ignored(a.event), a.told);
    StepKeepsSafe(first, blank, s, a, t);
    StepKeepsCoherent(first, blank, s, a, t);
    forall k | k in w.nodes.Keys ensures k in s.views.Keys {
      assert Knows(w, w.nodes[k]);
      assert Occurs(t, w.nodes[k]);
    }
    SmallerSet(w.nodes.Keys, s.views.Keys);
  }

  lemma StepAdvances<R(!new)>(first: Address, blank: Node<R>, s: System<R>, a: Action<R>, t: System<R>)
    requires SafeStep(first, blank, s, a, t)
    ensures Advances(s, t, a.at)
  {
    StepKeepsSafe(first, blank, s, a, t);
    NextOwn(s.views[a.at], a.event, blank);
    forall k ensures s.views[a.at].VersionOf(k) <= t.views[a.at].VersionOf(k) {
      StepIsNoOlder(first, blank, s, a, t, a.at, k);
    }
  }

  lemma GossipIs<R(!new)>(first: Address, blank: Node<R>, s: System<R>, a: Action<R>, t: System<R>)
    requires GossipReceived(first, blank, s, a, t)
    ensures a.at in s.views && a.event.Receive? && a.event.m in s.sent
    ensures t.views == s.views[a.at := s.views[a.at].Merged(a.event.m.nodes)]
    ensures a.told != {} ==> t.views[a.at] != s.views[a.at]
  {
    var v, w := s.views[a.at], t.views[a.at];
    ToldSize(Changed(v, a.event, blank), w, a.radius, a.event.m.source, a.told);
  }

  lemma GossipTeaches<R(!new)>(first: Address, blank: Node<R>, s: System<R>, a: Action<R>, t: System<R>)
    requires GossipReceived(first, blank, s, a, t)
    ensures KnowsMore(s, t, a.at)
    ensures a.told != {} ==> exists k <- s.views ::
              k != s.views[a.at].me.address && s.views[a.at].VersionOf(k) < t.views[a.at].VersionOf(k)
  {
    hide GossipReceived, View.Merged, View.VersionOf;
    GossipIs(first, blank, s, a, t);
    var v, list := s.views[a.at], a.event.m.nodes;
    MergedIsNoOlder(v, list);
    if a.told != {} {
      var n := NewsOf(v, list);
      GossipIsOfMembers(first, blank, s, a, t, n);
    }
  }

  lemma MergedIsNoOlder<R>(v: View<R>, list: seq<Node<R>>)
    ensures v.Merged(list).me == v.me && forall k :: v.VersionOf(k) <= v.Merged(list).VersionOf(k)
  {
    MergedIsLatest(v, list, 0);
    forall k ensures v.VersionOf(k) <= v.Merged(list).VersionOf(k) { MergedIsLatest(v, list, k); }
  }

  lemma NewsOf<R>(v: View<R>, list: seq<Node<R>>) returns (n: Node<R>)
    requires v.Merged(list) != v
    ensures n in list && n.address != v.me.address && v.VersionOf(n.address) < v.Merged(list).VersionOf(n.address)
  {
    MergeChanges(v, list);
    n :| n in list && n.address != v.me.address && v.VersionOf(n.address) < n.version;
    MergedIsLatest(v, list, n.address);
  }

  lemma GossipIsOfMembers<R(!new)>(first: Address, blank: Node<R>, s: System<R>, a: Action<R>, t: System<R>, n: Node<R>)
    requires GossipReceived(first, blank, s, a, t) && n in a.event.m.nodes
    ensures n.address in s.views
  {
    hide Reacts, Next, Extra;
    assert Occurs(s, n);
  }

  /** The receipt of one message of gossip: whoever passes it on is less behind than before. */
  lemma GossipStep<R(!new)>(first: Address, blank: Node<R>, s: System<R>, a: Action<R>, t: System<R>, xs: seq<Address>)
    requires GossipReceived(first, blank, s, a, t) && Listed(s, xs)
    ensures Listed(t, xs) && t.views.Keys == s.views.Keys && |a.told| <= |s.views.Keys|
    ensures Gap(t, xs, xs) <= Gap(s, xs, xs) && (a.told != {} ==> Gap(t, xs, xs) < Gap(s, xs, xs))
  {
    hide Safe, Coherent, Step, Reacts, Next, Extra, Gap;
    ToldToFew(first, blank, s, a, t);
    GossipTeaches(first, blank, s, a, t);
    GapDrops(s, t, a.at, xs, xs);
  }

  /** Any other event: at most one new version, which the other nodes do not know yet. */
  lemma OtherStep<R(!new)>(first: Address, blank: Node<R>, s: System<R>, a: Action<R>, t: System<R>, xs: seq<Address>)
    requires SafeStep(first, blank, s, a, t) && Listed(s, xs)
    ensures Listed(t, xs) && t.views.Keys == s.views.Keys && |a.told| <= |s.views.Keys|
    ensures Gap(t, xs, xs) < Gap(s, xs, xs) + |s.views.Keys|
  {
    hide Safe, Coherent, Step, Gap;
    ToldToFew(first, blank, s, a, t);
    StepAdvances(first, blank, s, a, t);
    GapGrows(s, t, a.at, xs, xs);
    ListSize(xs, s.views.Keys);
  }

  ghost function Told<R>(actions: seq<Action<R>>): nat {
    if actions == [] then 0 else Told(actions[..|actions| - 1]) + |actions[|actions| - 1].told|
  }

  /** The number of events other than the receipt of gossip. */
  ghost function Others<R>(actions: seq<Action<R>>): nat {
    if actions == [] then 0
    else Others(actions[..|actions| - 1]) + if IsGossip(actions[|actions| - 1].event) then 0 else 1
  }

  lemma StepOfRun<R(!new)>(first: Address, blank: Node<R>, states: seq<System<R>>, actions: seq<Action<R>>,
                           h: nat, next: nat, xs: seq<Address>)
    requires Run(first, blank, states, actions) && h < |actions| && next == h + 1 && Listed(states[h], xs)
    ensures Listed(states[next], xs) && states[next].views.Keys == states[h].views.Keys
    ensures |actions[h].told| <= |states[h].views.Keys|
    ensures var news := if IsGossip(actions[h].event) then 0 else |states[h].views.Keys|;
            && Gap(states[next], xs, xs) <= Gap(states[h], xs, xs) + news
            && (actions[h].told != {} ==> Gap(states[next], xs, xs) < Gap(states[h], xs, xs) + news)
  {
    SuperiorsNeverLoop(first, blank, states, actions, h);
    AlwaysCoherent(first, blank, states, actions, h);
    hide Safe, Coherent, Acyclic, Judge, Step, Gap;
    if IsGossip(actions[h].event) {
      GossipStep(first, blank, states[h], actions[h], states[next], xs);
    } else {
      OtherStep(first, blank, states[h], actions[h], states[next], xs);
    }
  }

  /** The messages that may be sent while a gap closes that other events may widen by one version for
      each node: one to every node for every version. */
  ghost function Budget(nodes: nat, from: int, to: int, others: nat): int {
    nodes * (from - to + nodes * others)
  }

  /** In every stretch of a run, whatever is received in it, in whatever order and however often, no
      more gossip is sent than the number of nodes times the number of versions by which the nodes
      have caught up, where every event other than the receipt of gossip may put each node behind by
      one version. */
  lemma {:induction false} GossipIsBounded<R(!new)>(first: Address, blank: Node<R>, states: seq<System<R>>,
                                                    actions: seq<Action<R>>, i: nat, j: nat, xs: seq<Address>)
    requires Run(first, blank, states, actions) && i <= j < |states| && Listed(states[i], xs)
    ensures Listed(states[j], xs) && states[j].views.Keys == states[i].views.Keys && 0 <= Gap(states[j], xs, xs)
    ensures Told(actions[i..j])
            <= Budget(|states[i].views.Keys|, Gap(states[i], xs, xs), Gap(states[j], xs, xs), Others(actions[i..j]))
    decreases j
  {
    assert |states| == |actions| + 1;
    hide Run, Gap, Told, Budget, Others;
    if i == j {
      NoBudget(actions, i, |states[i].views.Keys|, Gap(states[i], xs, xs));
    } else {
      var h := j - 1;
      GossipIsBounded(first, blank, states, actions, i, h, xs);
      StepOfRun(first, blank, states, actions, h, j, xs);
      TellOneMore(actions, i, h, j);
      MoreDrops(|states[i].views.Keys|, Gap(states[i], xs, xs), Gap(states[h], xs, xs), Gap(states[j], xs, xs),
                Others(actions[i..h]), Others(actions[i..j]), Told(actions[i..h]), |actions[h].told|);
    }
    GapIsNaturalInRun(first, blank, states, actions, j, xs);
  }

  /** Once nothing happens but the receipt of gossip, the number of messages that are still sent is
      bounded by what the nodes do not know yet. */
  lemma GossipComesToRest<R(!new)>(first: Address, blank: Node<R>, states: seq<System<R>>,
                                   actions: seq<Action<R>>, i: nat, j: nat, xs: seq<Address>)
    requires Run(first, blank, states, actions) && i <= j < |states| && Listed(states[i], xs)
    requires forall h | i <= h < j :: IsGossip(actions[h].event)
    ensures Listed(states[j], xs) && states[j].views.Keys == states[i].views.Keys && 0 <= Gap(states[j], xs, xs)
    ensures Told(actions[i..j]) <= |states[i].views.Keys| * (Gap(states[i], xs, xs) - Gap(states[j], xs, xs))
  {
    NoOthers(actions[i..j]);
    hide Run, Gap, Told, Listed, IsGossip, Others, Budget;
    GossipIsBounded(first, blank, states, actions, i, j, xs);
    BudgetAlone(|states[i].views.Keys|, Gap(states[i], xs, xs), Gap(states[j], xs, xs));
  }

  lemma BudgetAlone(nodes: nat, from: int, to: int)
    ensures Budget(nodes, from, to, 0) == nodes * (from - to)
  {
  }

  lemma {:induction false} NoOthers<R>(s: seq<Action<R>>)
    requires forall a <- s :: IsGossip(a.event)
    ensures Others(s) == 0
  {
    if s != [] { NoOthers(s[..|s| - 1]); }
  }

  lemma GapIsNaturalInRun<R(!new)>(first: Address, blank: Node<R>, states: seq<System<R>>, actions: seq<Action<R>>,
                                   j: nat, xs: seq<Address>)
    requires Run(first, blank, states, actions) && j < |states| && Listed(states[j], xs)
    ensures 0 <= Gap(states[j], xs, xs)
  {
    SuperiorsNeverLoop(first, blank, states, actions, j);
    AlwaysCoherent(first, blank, states, actions, j);
    hide Gap, Safe, Coherent, Acyclic, Judge;
    GapIsNatural(states[j], xs, xs);
  }

  lemma TellOneMore<R>(s: seq<Action<R>>, i: nat, h: nat, j: nat)
    requires i <= h < |s| && j == h + 1
    ensures Told(s[i..j]) == Told(s[i..h]) + |s[h].told|
    ensures Others(s[i..j]) == Others(s[i..h]) + if IsGossip(s[h].event) then 0 else 1
  {
    assert s[i..j][..h - i] == s[i..h];
  }

  lemma NoBudget<R>(s: seq<Action<R>>, i: nat, nodes: nat, gap: int)
    requires i <= |s|
    ensures Told(s[i..i]) == Others(s[i..i]) == Budget(nodes, gap, gap, 0) == 0
  {
  }

  lemma MoreDrops(n: nat, g: int, g1: int, g2: int, others: nat, others2: nat, before: nat, told: nat)
    requires others <= others2 <= others + 1 && told <= n && before <= Budget(n, g, g1, others)
    requires var d := if others2 == others then 0 else n; g2 <= g1 + d && (told != 0 ==> g2 < g1 + d)
    ensures before + told <= Budget(n, g, g2, others2)
  {
    var d := if others2 == others then 0 else n;
    assert n * others2 == n * others + d;
    Sum(n, g - g1 + n * others, g1 + d - g2);
    if told != 0 { MulMono(1, g1 + d - g2, n); }
    assert 0 <= n * (g1 + d - g2);
  }

  lemma Sum(n: int, a: int, b: int)
    ensures n * (a + b) == n * a + n * b
  {
  }
}
