/** The queues of a pipeline and the threads that serve them, step by step. Everything but the
    execution of a kernel happens under one lock, so the steps below are atomic. */
module ThreadPool {

  datatype Kernel = Kernel(name: nat, hash: nat)

  /** A thread is about to look into its queues, waits for a notification that it may already have
      got, executes a kernel that it took from its own queue or from the common one, or is gone. */
  datatype Thread = Ready | Asleep(notified: bool) | Running(k: Kernel, own: bool) | Gone

  /** The first `upstream` threads serve the common queue. If there are no others they also have a
      queue each, otherwise the other threads have. The last three fields record what has been sent to
      the common queue and started from it, and what has been sent to each queue and finished. */
  datatype Pool = Pool(upstream: nat, threads: seq<Thread>, common: seq<Kernel>, queues: seq<seq<Kernel>>,
                       stopping: bool, sent: seq<Kernel>, started: seq<Kernel>, sentTo: seq<seq<Kernel>>,
                         doneOf: seq<seq<Kernel>>) {

    predicate Shape() {
      && 1 <= upstream <= |threads|
      && |queues| == |sentTo| == |doneOf| == (if upstream == |threads| then upstream else |threads| - upstream)
      && upstream <= |queues|
    }

    /** The thread that serves the queue `i`. */
    function Server(i: nat): nat
      requires Shape() && i < |queues|
      ensures Server(i) < |threads|
    {
      if upstream == |threads| then i else upstream + i
    }

    /** The queue of a thread, if it has one. */
    predicate HasQueue(t: nat)
      requires Shape()
    {
      t < |threads| && (upstream == |threads| || upstream <= t)
    }

    function QueueOf(t: nat): (i: nat)
      requires Shape() && HasQueue(t)
      ensures i < |queues| && Server(i) == t
    {
      if upstream == |threads| then t else t - upstream
    }

    predicate OwnQueueEmpty(t: nat)
      requires Shape()
    {
      !HasQueue(t) || queues[QueueOf(t)] == []
    }

    function Index(k: Kernel): (i: nat)
      requires Shape()
      ensures i < |queues|
    {
      k.hash % (if upstream < |threads| - upstream then |threads| - upstream else upstream)
    }
  }

  datatype Item = Item(k: Kernel, downstream: bool)

  datatype Action =
    | SendUpstream(k: Kernel, woken: int)
    | SendDownstream(k: Kernel)
    | SendAll(ks: seq<Item>)
    | Look(t: nat)
    | Finish(t: nat)
    | Wake(t: nat)
    | Stop

  predicate Sleeping(p: Pool, t: nat) {
    t < |p.threads| && p.threads[t] == Asleep(false)
  }

  function Notified(t: Thread): Thread {
    if t.Asleep? then Asleep(true) else t
  }

  /** Notifies the threads from `a` to `b`. */
  function NotifyAll(p: Pool, a: nat, b: nat): Pool
    requires a <= b <= |p.threads|
  {
    p.(threads := seq(|p.threads|, t requires 0 <= t < |p.threads| =>
                      if a <= t < b then Notified(p.threads[t]) else p.threads[t]))
  }

  predicate Enabled(p: Pool, a: Action)
    requires p.Shape()
  {
    match a
    case SendUpstream(_, w) =>
      if w < 0 then forall t | 0 <= t < p.upstream :: !Sleeping(p, t) else w < p.upstream && Sleeping(p, w)
    case SendDownstream(_) => true
    case SendAll(_) => true
    case Look(t) => t < |p.threads| && p.threads[t] == Ready
    case Finish(t) => t < |p.threads| && p.threads[t].Running?
    case Wake(t) => t < |p.threads| && p.threads[t].Asleep?
    case Stop => true
  }

  /** A thread takes from its own queue first; without work it leaves, or goes to sleep. */
  function LookStep(p: Pool, t: nat): Pool
    requires p.Shape() && t < |p.threads|
  {
    if !p.OwnQueueEmpty(t) then
      var i := p.QueueOf(t);
      var k := p.queues[i][0];
      p.(threads := p.threads[t := Running(k, true)], queues := p.queues[i := p.queues[i][1..]])
    else if t < p.upstream && p.common != [] then
      var k := p.common[0];
      p.(threads := p.threads[t := Running(k, false)], common := p.common[1..], started := p.started + [k])
    else p.(threads := p.threads[t := if p.stopping then Gone else Asleep(false)])
  }

  function FinishStep(p: Pool, t: nat): Pool
    requires p.Shape() && t < |p.threads| && p.threads[t].Running?
  {
    var q := p.(threads := p.threads[t := Ready]);
    if p.threads[t].own && p.HasQueue(t) then
      var i := p.QueueOf(t);
      q.(doneOf := p.doneOf[i := p.doneOf[i] + [p.threads[t].k]])
    else q
  }

  function DownstreamStep(p: Pool, k: Kernel): Pool
    requires p.Shape()
  {
    var q := Enqueue(p, Item(k, true));
    if p.upstream == |p.threads| then NotifyAll(q, 0, p.upstream) else q
  }

  /** A kernel is queued; only a thread that serves a queue of its own is notified at once. */
  function Enqueue(p: Pool, item: Item): (q: Pool)
    requires p.Shape()
    ensures q.Shape() && q.upstream == p.upstream && |q.threads| == |p.threads| && q.stopping == p.stopping
  {
    if !item.downstream then p.(common := p.common + [item.k], sent := p.sent + [item.k])
    else
      var i := p.Index(item.k);
      var q := p.(queues := p.queues[i := p.queues[i] + [item.k]], sentTo := p.sentTo[i := p.sentTo[i] + [item.k]]);
      if p.upstream == |p.threads| then q else NotifyAll(q, p.upstream + i, p.upstream + i + 1)
  }

  function EnqueueAll(p: Pool, ks: seq<Item>): (q: Pool)
    requires p.Shape()
    ensures q.Shape() && q.upstream == p.upstream && |q.threads| == |p.threads| && q.stopping == p.stopping
  {
    if ks == [] then p else Enqueue(EnqueueAll(p, ks[..|ks| - 1]), ks[|ks| - 1])
  }

  /** Several kernels are sent under one lock: the common queue is announced when all are queued. */
  function SendAllStep(p: Pool, ks: seq<Item>): Pool
    requires p.Shape()
  {
    var q := EnqueueAll(p, ks);
    if exists item <- ks :: !item.downstream || p.upstream == |p.threads| then NotifyAll(q, 0, q.upstream) else q
  }

  function Step(p: Pool, a: Action): Pool
    requires p.Shape() && Enabled(p, a)
  {
    match a
    case SendUpstream(k, w) =>
      p.(common := p.common + [k], sent := p.sent + [k],
         threads := if w < 0 then p.threads else p.threads[w := Asleep(true)])
    case SendDownstream(k) => DownstreamStep(p, k)
    case SendAll(ks) => SendAllStep(p, ks)
    case Look(t) => LookStep(p, t)
    case Finish(t) => FinishStep(p, t)
    case Wake(t) => p.(threads := p.threads[t := Ready])
    case Stop => NotifyAll(p, 0, |p.threads|).(stopping := true)
  }

  // ---------------------------------------------------------------------------
  // What every step keeps.

  /** The thread is about to look into the common queue. */
  predicate Free(p: Pool, t: nat)
    requires p.Shape()
  {
    t < p.upstream && (p.threads[t] == Ready || p.threads[t] == Asleep(true)) && p.OwnQueueEmpty(t)
  }

  function CountFree(p: Pool, n: nat): nat
    requires p.Shape()
  {
    if n == 0 then 0 else CountFree(p, n - 1) + if Free(p, n - 1) then 1 else 0
  }

  /** What a thread executes from its own queue. */
  function RunningOf(p: Pool, i: nat): seq<Kernel>
    requires p.Shape() && i < |p.queues|
  {
    var t := p.threads[p.Server(i)];
    if t.Running? && t.own then [t.k] else []
  }

  ghost predicate Ordered(p: Pool)
    requires p.Shape()
  {
    && p.sent == p.started + p.common
    && (forall i | 0 <= i < |p.queues| :: p.sentTo[i] == p.doneOf[i] + RunningOf(p, i) + p.queues[i])
    && forall t | 0 <= t < |p.threads| && p.threads[t].Running? && p.threads[t].own :: p.HasQueue(t)
  }

  ghost predicate Attended(p: Pool)
    requires p.Shape()
  {
    && (forall t | 0 <= t < |p.threads| && p.threads[t] == Gone :: p.stopping)
    && (forall t | 0 <= t < |p.threads| && Sleeping(p, t) :: p.OwnQueueEmpty(t))
    && ((exists t | 0 <= t < p.upstream :: Sleeping(p, t)) ==> |p.common| <= CountFree(p, p.upstream))
  }

  ghost predicate Good(p: Pool) {
    p.Shape() && Ordered(p) && Attended(p)
  }

  lemma {:induction false} CountChange(p: Pool, q: Pool, n: nat, t: nat)
    requires p.Shape() && q.Shape() && forall s: nat | s < n && s != t :: Free(p, s) == Free(q, s)
    ensures CountFree(q, n) + (if t < n && Free(p, t) then 1 else 0) == CountFree(p, n)
            + (if t < n && Free(q, t) then 1 else 0)
  {
    if 0 < n { CountChange(p, q, n - 1, t); }
  }

  lemma NotifyKeepsOrder(p: Pool, a: nat, b: nat)
    requires p.Shape() && Ordered(p) && a <= b <= |p.threads|
    ensures var q := NotifyAll(p, a, b); q.Shape() && Ordered(q)
  {
    var q := NotifyAll(p, a, b);
    forall i | 0 <= i < |q.queues| ensures RunningOf(q, i) == RunningOf(p, i) {
      assert q.Server(i) == p.Server(i);
    }
  }

  lemma EnqueueInKeepsOrder(p: Pool, i: nat, k: Kernel)
    requires p.Shape() && Ordered(p) && i < |p.queues|
    ensures var q := p.(queues := p.queues[i := p.queues[i] + [k]], sentTo := p.sentTo[i := p.sentTo[i] + [k]]);
            q.Shape() && Ordered(q)
  {
    var q := p.(queues := p.queues[i := p.queues[i] + [k]], sentTo := p.sentTo[i := p.sentTo[i] + [k]]);
    forall j | 0 <= j < |q.queues| ensures q.sentTo[j] == q.doneOf[j] + RunningOf(q, j) + q.queues[j] {
      assert RunningOf(q, j) == RunningOf(p, j);
      if i == j { Appended(p.doneOf[j], RunningOf(p, j), p.queues[j], k); }
    }
    assert forall t | 0 <= t < |p.threads| :: q.HasQueue(t) == p.HasQueue(t);
  }

  lemma Appended(a: seq<Kernel>, b: seq<Kernel>, c: seq<Kernel>, k: Kernel)
    ensures a + b + c + [k] == a + b + (c + [k])
  {
  }

  lemma EnqueueKeepsOrder(p: Pool, item: Item)
    requires p.Shape() && Ordered(p)
    ensures Ordered(Enqueue(p, item))
  {
    if !item.downstream {
      hide Ordered;
      SendUpstreamKeepsOrder(p, item.k, -1);
    } else {
      EnqueueDownKeepsOrder(p, item);
    }
  }

  lemma EnqueueDownKeepsOrder(p: Pool, item: Item)
    requires p.Shape() && Ordered(p) && item.downstream
    ensures Ordered(Enqueue(p, item))
  {
    var i := p.Index(item.k);
    hide Ordered, NotifyAll;
    EnqueueInKeepsOrder(p, i, item.k);
    var q := p.(queues := p.queues[i := p.queues[i] + [item.k]], sentTo := p.sentTo[i := p.sentTo[i] + [item.k]]);
    if p.upstream != |p.threads| { NotifyKeepsOrder(q, p.upstream + i, p.upstream + i + 1); }
  }

  lemma SendUpstreamKeepsOrder(p: Pool, k: Kernel, w: int)
    requires p.Shape() && Ordered(p) && (w < 0 || (w < p.upstream && Sleeping(p, w)))
    ensures var q := p.(common := p.common + [k], sent := p.sent + [k],
                        threads := if w < 0 then p.threads else p.threads[w := Asleep(true)]);
            q.Shape() && Ordered(q)
  {
    var q := p.(common := p.common + [k], sent := p.sent + [k],
                threads := if w < 0 then p.threads else p.threads[w := Asleep(true)]);
    forall i | 0 <= i < |q.queues| ensures RunningOf(q, i) == RunningOf(p, i) {}
  }

  lemma WakeKeepsOrder(p: Pool, t: nat)
    requires p.Shape() && Ordered(p) && Enabled(p, Wake(t))
    ensures var q := p.(threads := p.threads[t := Ready]); q.Shape() && Ordered(q)
  {
    var q := p.(threads := p.threads[t := Ready]);
    forall i | 0 <= i < |q.queues| ensures RunningOf(q, i) == RunningOf(p, i) {}
  }

  lemma StopKeepsOrder(p: Pool)
    requires p.Shape() && Ordered(p)
    ensures p.(stopping := true).Shape() && Ordered(p.(stopping := true))
  {
    var q := p.(stopping := true);
    forall i | 0 <= i < |q.queues| ensures RunningOf(q, i) == RunningOf(p, i) {}
  }

  lemma {:induction false} EnqueueAllKeepsOrder(p: Pool, ks: seq<Item>)
    requires p.Shape() && Ordered(p)
    ensures Ordered(EnqueueAll(p, ks))
  {
    if ks != [] {
      EnqueueAllKeepsOrder(p, ks[..|ks| - 1]);
      EnqueueKeepsOrder(EnqueueAll(p, ks[..|ks| - 1]), ks[|ks| - 1]);
    }
  }

  /** If only the thread `t` changes, the other queues are in order as before. */
  lemma OneQueue(p: Pool, q: Pool, t: nat)
    requires p.Shape() && Ordered(p) && q.Shape() && p.upstream == q.upstream && |p.threads| == |q.threads|
    requires t < |p.threads| && q.threads == p.threads[t := q.threads[t]] && q.sentTo == p.sentTo
    requires forall i | 0 <= i < |p.queues| && p.Server(i) != t ::
               q.queues[i] == p.queues[i] && q.doneOf[i] == p.doneOf[i]
    requires p.HasQueue(t) ==> var i := p.QueueOf(t); q.sentTo[i] == q.doneOf[i] + RunningOf(q, i) + q.queues[i]
    requires q.threads[t].Running? && q.threads[t].own ==> p.HasQueue(t)
    requires q.sent == q.started + q.common
    ensures Ordered(q)
  {
    forall i | 0 <= i < |q.queues| ensures q.sentTo[i] == q.doneOf[i] + RunningOf(q, i) + q.queues[i] {
      if p.Server(i) == t {
        assert p.HasQueue(t) && p.QueueOf(t) == i;
      } else {
        assert RunningOf(q, i) == RunningOf(p, i);
      }
    }
  }

  lemma LookKeepsOrder(p: Pool, t: nat)
    requires p.Shape() && Ordered(p) && Enabled(p, Look(t))
    ensures LookStep(p, t).Shape() && Ordered(LookStep(p, t))
  {
    var q := LookStep(p, t);
    if p.HasQueue(t) {
      var i := p.QueueOf(t);
      assert RunningOf(p, i) == [];
      if p.queues[i] != [] { assert p.queues[i] == [p.queues[i][0]] + p.queues[i][1..]; }
    }
    OneQueue(p, q, t);
  }

  lemma FinishKeepsOrder(p: Pool, t: nat)
    requires p.Shape() && Ordered(p) && Enabled(p, Finish(t))
    ensures FinishStep(p, t).Shape() && Ordered(FinishStep(p, t))
  {
    OneQueue(p, FinishStep(p, t), t);
  }

  lemma StepKeepsOrder(p: Pool, a: Action)
    requires p.Shape() && Ordered(p) && Enabled(p, a)
    ensures Step(p, a).Shape() && Ordered(Step(p, a))
  {
    hide LookStep, FinishStep, Enqueue, EnqueueAll, NotifyAll, Ordered;
    match a
    case SendUpstream(k, w) => SendUpstreamKeepsOrder(p, k, w);
    case SendDownstream(k) =>
      EnqueueKeepsOrder(p, Item(k, true));
      if p.upstream == |p.threads| { NotifyKeepsOrder(Enqueue(p, Item(k, true)), 0, p.upstream); }
    case SendAll(ks) =>
      EnqueueAllKeepsOrder(p, ks);
      NotifyKeepsOrder(EnqueueAll(p, ks), 0, p.upstream);
    case Look(t) => LookKeepsOrder(p, t);
    case Finish(t) => FinishKeepsOrder(p, t);
    case Wake(t) => WakeKeepsOrder(p, t);
    case Stop =>
      NotifyKeepsOrder(p, 0, |p.threads|);
      StopKeepsOrder(NotifyAll(p, 0, |p.threads|));
  }

  /** If only the thread `t` changes, and the queues of the others stay as empty as they were. */
  lemma OneThread(p: Pool, q: Pool, t: nat)
    requires p.Shape() && q.Shape() && p.upstream == q.upstream && |p.threads| == |q.threads| && t < |p.threads|
    requires q.threads == p.threads[t := q.threads[t]]
    requires forall s | 0 <= s < |p.threads| && s != t :: q.OwnQueueEmpty(s) == p.OwnQueueEmpty(s)
    ensures CountFree(q, q.upstream) + (if Free(p, t) then 1 else 0)
            == CountFree(p, p.upstream) + (if Free(q, t) then 1 else 0)
    ensures forall s | 0 <= s < |p.threads| && s != t :: Sleeping(q, s) == Sleeping(p, s)
  {
    CountChange(p, q, p.upstream, t);
  }

  lemma SendUpstreamAttended(p: Pool, k: Kernel, w: int)
    requires p.Shape() && Attended(p) && Enabled(p, SendUpstream(k, w))
    ensures Attended(Step(p, SendUpstream(k, w)))
  {
    var q := Step(p, SendUpstream(k, w));
    assert forall s | 0 <= s < |p.threads| :: q.OwnQueueEmpty(s) == p.OwnQueueEmpty(s);
    if 0 <= w {
      OneThread(p, q, w);
      assert Free(q, w);
    } else {
      forall s | 0 <= s < |p.threads| ensures Sleeping(q, s) == Sleeping(p, s) {}
    }
  }

  lemma EnqueueAttended(p: Pool, k: Kernel)
    requires p.Shape() && Attended(p) && p.upstream != |p.threads|
    ensures Attended(Enqueue(p, Item(k, true)))
  {
    var q, i := Enqueue(p, Item(k, true)), p.Index(k);
    var t := p.upstream + i;
    forall s | 0 <= s < |p.threads| && s != t
      ensures q.threads[s] == p.threads[s] && q.OwnQueueEmpty(s) == p.OwnQueueEmpty(s) {
      if p.HasQueue(s) { assert p.QueueOf(s) != i; }
    }
    CountChange(p, q, p.upstream, p.upstream);
    forall s | 0 <= s < p.upstream ensures Sleeping(q, s) == Sleeping(p, s) {}
  }

  lemma NotifiedAttended(p: Pool)
    requires p.Shape() && (forall t | 0 <= t < |p.threads| && p.threads[t] == Gone :: p.stopping)
    requires forall t | p.upstream <= t < |p.threads| && Sleeping(p, t) :: p.OwnQueueEmpty(t)
    ensures Attended(NotifyAll(p, 0, p.upstream))
  {
    var q := NotifyAll(p, 0, p.upstream);
    forall t | 0 <= t < p.upstream ensures !Sleeping(q, t) {}
    forall t | p.upstream <= t < |p.threads|
      ensures Sleeping(q, t) == Sleeping(p, t) && q.OwnQueueEmpty(t) == p.OwnQueueEmpty(t) {}
  }

  /** The downstream threads are attended even while kernels are still being queued. */
  ghost predicate HalfAttended(p: Pool)
    requires p.Shape()
  {
    && (forall t | 0 <= t < |p.threads| && p.threads[t] == Gone :: p.stopping)
    && (forall t | p.upstream <= t < |p.threads| && Sleeping(p, t) :: p.OwnQueueEmpty(t))
  }

  lemma EnqueueHalfAttended(p: Pool, item: Item)
    requires p.Shape() && HalfAttended(p)
    ensures HalfAttended(Enqueue(p, item))
  {
    var q := Enqueue(p, item);
    if item.downstream {
      var i := p.Index(item.k);
      forall t | p.upstream <= t < |p.threads| && Sleeping(q, t) ensures q.OwnQueueEmpty(t) {
        assert t != p.upstream + i && Sleeping(p, t) && p.QueueOf(t) != i;
      }
    } else {
      forall t | p.upstream <= t < |p.threads| && Sleeping(q, t) ensures q.OwnQueueEmpty(t) { assert Sleeping(p, t); }
    }
  }

  lemma {:induction false} EnqueueAllAttended(p: Pool, ks: seq<Item>)
    requires p.Shape() && Attended(p)
    ensures HalfAttended(EnqueueAll(p, ks))
    ensures p.upstream != |p.threads| && (forall item <- ks :: item.downstream) ==> Attended(EnqueueAll(p, ks))
  {
    if ks != [] {
      var n := |ks| - 1;
      EnqueueAllAttended(p, ks[..n]);
      var q := EnqueueAll(p, ks[..n]);
      hide Attended, HalfAttended, Enqueue;
      EnqueueHalfAttended(q, ks[n]);
      if p.upstream != |p.threads| && forall item <- ks :: item.downstream {
        assert ks[n] in ks;
        assert forall item <- ks[..n] :: item in ks;
        EnqueueAttended(q, ks[n].k);
      }
    }
  }

  lemma LookAttended(p: Pool, t: nat)
    requires p.Shape() && Attended(p) && Enabled(p, Look(t))
    ensures LookStep(p, t).Shape() && Attended(LookStep(p, t))
  {
    var q := LookStep(p, t);
    forall s | 0 <= s < |p.threads| && s != t ensures q.OwnQueueEmpty(s) == p.OwnQueueEmpty(s) {
      if p.HasQueue(s) && p.HasQueue(t) { assert p.QueueOf(s) != p.QueueOf(t); }
    }
    OneThread(p, q, t);
    if p.OwnQueueEmpty(t) { assert q.OwnQueueEmpty(t); }
  }

  lemma FinishAttended(p: Pool, t: nat)
    requires p.Shape() && Attended(p) && Enabled(p, Finish(t))
    ensures FinishStep(p, t).Shape() && Attended(FinishStep(p, t))
  {
    var q := FinishStep(p, t);
    assert forall s | 0 <= s < |p.threads| :: q.OwnQueueEmpty(s) == p.OwnQueueEmpty(s);
    OneThread(p, q, t);
  }

  lemma WakeAttended(p: Pool, t: nat)
    requires p.Shape() && Attended(p) && Enabled(p, Wake(t))
    ensures Attended(Step(p, Wake(t)))
  {
    var q := Step(p, Wake(t));
    assert forall s | 0 <= s < |p.threads| :: q.OwnQueueEmpty(s) == p.OwnQueueEmpty(s);
    OneThread(p, q, t);
  }

  lemma StopAttended(p: Pool)
    requires p.Shape() && Attended(p)
    ensures Attended(Step(p, Stop))
  {
    var q := Step(p, Stop);
    forall t | 0 <= t < |q.threads| ensures !Sleeping(q, t) {}
  }

  lemma StepKeepsAttended(p: Pool, a: Action)
    requires p.Shape() && Attended(p) && Enabled(p, a) && Step(p, a).Shape()
    ensures Attended(Step(p, a))
  {
    match a
    case SendUpstream(k, w) => SendUpstreamAttended(p, k, w);
    case SendDownstream(k) =>
      if p.upstream == |p.threads| {
        NotifiedAttended(Enqueue(p, Item(k, true)));
      } else {
        EnqueueAttended(p, k);
      }
    case SendAll(ks) =>
      EnqueueAllAttended(p, ks);
      var q := EnqueueAll(p, ks);
      if exists item <- ks :: !item.downstream || p.upstream == |p.threads| {
        NotifiedAttended(q);
      } else if ks != [] {
        assert ks[0] in ks;
      }
    case Look(t) => LookAttended(p, t);
    case Finish(t) => FinishAttended(p, t);
    case Wake(t) => WakeAttended(p, t);
    case Stop => StopAttended(p);
  }

  // ---------------------------------------------------------------------------
  // All runs.

  ghost predicate Start(p: Pool) {
    && p.Shape() && !p.stopping && p.common == p.sent == p.started == []
    && (forall t | 0 <= t < |p.threads| :: p.threads[t] == Ready)
    && forall i | 0 <= i < |p.queues| :: p.queues[i] == p.sentTo[i] == p.doneOf[i] == []
  }

  ghost predicate Run(states: seq<Pool>, actions: seq<Action>) {
    && |states| == |actions| + 1 && Start(states[0])
    && forall i | 0 <= i < |actions| ::
         states[i].Shape() && Enabled(states[i], actions[i]) && states[i + 1] == Step(states[i], actions[i])
  }

  lemma StartIsGood(p: Pool)
    requires Start(p)
    ensures Good(p)
  {
    forall i | 0 <= i < |p.queues| ensures RunningOf(p, i) == [] {}
    assert forall t | 0 <= t < |p.threads| :: !Sleeping(p, t);
  }

  lemma {:induction false} AlwaysGood(states: seq<Pool>, actions: seq<Action>, i: nat)
    requires Run(states, actions) && i < |states|
    ensures Good(states[i])
  {
    if i == 0 {
      StartIsGood(states[0]);
    } else {
      var h := i - 1;
      AlwaysGood(states, actions, h);
      assert states[h + 1] == states[i];
      hide Step, Attended, Ordered, Enabled;
      StepKeepsOrder(states[h], actions[h]);
      StepKeepsAttended(states[h], actions[h]);
    }
  }

  /** In every run: each kernel is started at most once and in the order in which it was sent; the
      kernels of one queue, hence all with the same hash, are executed one after the other in that
      order; and no kernel waits for threads that all sleep without a notification. Moreover, while
      a thread sleeps, every kernel in the common queue has a thread of its own that is about to
      take it. */
  lemma NothingIsLostOrForgotten(states: seq<Pool>, actions: seq<Action>, i: nat)
    requires Run(states, actions) && i < |states|
    ensures var p := states[i];
            && p.Shape() && p.sent == p.started + p.common
            && (forall j: nat | j < |p.queues| ::
                  && |RunningOf(p, j)| <= 1 && p.sentTo[j] == p.doneOf[j] + RunningOf(p, j) + p.queues[j]
                  && (p.queues[j] != [] ==> !Sleeping(p, p.Server(j))))
            && (p.common != [] ==> exists t: nat | t < p.upstream :: !Sleeping(p, t))
            && ((exists t: nat | t < p.upstream :: Sleeping(p, t)) ==> |p.common| <= CountFree(p, p.upstream))
  {
    var p := states[i];
    AlwaysGood(states, actions, i);
    if forall t: nat | t < p.upstream :: Sleeping(p, t) {
      NobodyIsFree(p, p.upstream);
      assert Sleeping(p, 0);
    }
    forall j: nat | j < |p.queues| && p.queues[j] != [] ensures !Sleeping(p, p.Server(j)) {
      assert p.HasQueue(p.Server(j)) && p.QueueOf(p.Server(j)) == j;
    }
  }

  lemma {:induction false} NobodyIsFree(p: Pool, n: nat)
    requires p.Shape() && forall t: nat | t < n :: Sleeping(p, t)
    ensures CountFree(p, n) == 0
  {
    if 0 < n {
      NobodyIsFree(p, n - 1);
      assert Sleeping(p, n - 1);
    }
  }

  /** Every hash leads to a queue exactly if there are no downstream threads or at least as many as
      upstream threads. */
  lemma EveryHashHasAQueue(upstream: nat, downstream: nat)
    requires 1 <= upstream
    ensures var size := if upstream < downstream then downstream else upstream;
            (forall h: nat :: h % size < (if downstream == 0 then upstream else downstream)) <==>
            downstream == 0 || upstream <= downstream
  {
    var size := if upstream < downstream then downstream else upstream;
    if 0 < downstream < upstream {
      assert downstream % size == downstream;
    }
  }

  /** The pool has kept its threads and has sent no less to every queue. */
  ghost predicate Extends(p: Pool, q: Pool)
    requires p.Shape()
  {
    && q.Shape() && q.upstream == p.upstream && |q.threads| == |p.threads|
    && forall i | 0 <= i < |p.queues| :: p.sentTo[i] <= q.sentTo[i]
  }

  /** The action sends the kernel downstream, alone or among others. */
  predicate Sends(a: Action, k: Kernel) {
    a == SendDownstream(k) || (a.SendAll? && Item(k, true) in a.ks)
  }

  /** The kernel has been sent to its queue between the states `p` and `q`. */
  ghost predicate Arrives(p: Pool, q: Pool, k: Kernel)
    requires p.Shape() && Extends(p, q)
  {
    exists u :: |p.sentTo[p.Index(k)]| <= u < |q.sentTo[p.Index(k)]| && q.sentTo[p.Index(k)][u] == k
  }

  lemma EnqueueExtends(p: Pool, item: Item)
    requires p.Shape()
    ensures Extends(p, Enqueue(p, item)) && (item.downstream ==> Arrives(p, Enqueue(p, item), item.k))
  {
    if item.downstream {
      var i := p.Index(item.k);
      assert Enqueue(p, item).sentTo[i][|p.sentTo[i]|] == item.k;
    }
  }

  lemma ExtendsOn(p: Pool, q: Pool, r: Pool)
    requires p.Shape() && Extends(p, q) && Extends(q, r)
    ensures Extends(p, r) && forall k :: Arrives(p, q, k) || Arrives(q, r, k) ==> Arrives(p, r, k)
  {
    forall k | Arrives(p, q, k) || Arrives(q, r, k) ensures Arrives(p, r, k) {
      var i := p.Index(k);
      assert q.Index(k) == i;
      if Arrives(p, q, k) {
        var u :| |p.sentTo[i]| <= u < |q.sentTo[i]| && q.sentTo[i][u] == k;
        assert r.sentTo[i][u] == k;
      }
    }
  }

  lemma {:induction false} EnqueueAllExtends(p: Pool, ks: seq<Item>)
    requires p.Shape()
    ensures Extends(p, EnqueueAll(p, ks))
    ensures forall k :: Item(k, true) in ks ==> Arrives(p, EnqueueAll(p, ks), k)
  {
    if ks != [] {
      var n := |ks| - 1;
      var q := EnqueueAll(p, ks[..n]);
      EnqueueAllExtends(p, ks[..n]);
      EnqueueExtends(q, ks[n]);
      ExtendsOn(p, q, EnqueueAll(p, ks));
      assert ks == ks[..n] + [ks[n]];
    }
  }

  lemma StepExtends(p: Pool, a: Action)
    requires p.Shape() && Enabled(p, a)
    ensures Extends(p, Step(p, a)) && forall k :: Sends(a, k) ==> Arrives(p, Step(p, a), k)
  {
    hide Arrives, Extends, Enqueue, EnqueueAll, NotifyAll, LookStep, FinishStep;
    NotifyAllSendsNothing();
    match a
    case SendDownstream(k) =>
      EnqueueExtends(p, Item(k, true));
      SameSent(p, Enqueue(p, Item(k, true)), Step(p, a));
    case SendAll(ks) =>
      EnqueueAllExtends(p, ks);
      SameSent(p, EnqueueAll(p, ks), Step(p, a));
    case _ => OthersExtend(p, a);
  }

  lemma OthersExtend(p: Pool, a: Action)
    requires p.Shape() && Enabled(p, a) && !a.SendDownstream? && !a.SendAll?
    ensures Extends(p, Step(p, a))
  {
  }

  lemma NotifyAllSendsNothing()
    ensures forall p: Pool, a: nat, b: nat | a <= b <= |p.threads| ::
              var q := NotifyAll(p, a, b); q == p.(threads := q.threads) && |q.threads| == |p.threads|
  {
  }

  lemma SameSent(p: Pool, q: Pool, r: Pool)
    requires p.Shape() && Extends(p, q) && r.Shape() && r.sentTo == q.sentTo && r.upstream == q.upstream
    requires |r.threads| == |q.threads|
    ensures Extends(p, r) && forall k :: Arrives(p, q, k) ==> Arrives(p, r, k)
  {
  }

  lemma {:induction false} RunExtends(states: seq<Pool>, actions: seq<Action>, i: nat, j: nat)
    requires Run(states, actions) && i <= j < |states|
    ensures states[i].Shape() && Extends(states[i], states[j])
    decreases j
  {
    AlwaysGood(states, actions, i);
    if i < j {
      var h := j - 1;
      RunExtends(states, actions, i, h);
      assert states[h + 1] == Step(states[h], actions[h]);
      hide Step, Enabled, Arrives, Good;
      StepExtends(states[h], actions[h]);
      ExtendsOn(states[i], states[h], states[j]);
    }
  }

  /** Of any two kernels with the same hash that are sent in a run, the one that is sent first is
      before the other one in all that is sent to their common queue, hence is executed first. */
  lemma SameHashSameQueue(states: seq<Pool>, actions: seq<Action>, i: nat, j: nat, h: nat, k: Kernel, l: Kernel)
    requires Run(states, actions) && i < j < h < |states|
    requires Sends(actions[i], k) && Sends(actions[j], l) && k.hash == l.hash
    ensures states[h].Shape()
    ensures var s := states[h].sentTo[k.hash % |states[h].queues|];
            exists u, v :: 0 <= u < v < |s| && s[u] == k && s[v] == l
  {
    RunExtends(states, actions, i, i + 1);
    RunExtends(states, actions, i + 1, j);
    RunExtends(states, actions, j, j + 1);
    RunExtends(states, actions, j + 1, h);
    var before, after, then_, end, last := states[i], states[i + 1], states[j], states[j + 1], states[h];
    StepExtends(before, actions[i]);
    StepExtends(then_, actions[j]);
    InOrder(before, after, then_, end, last, k, l);
    hide *;
    IndexIsRemainder(last, k);
  }

  lemma IndexIsRemainder(p: Pool, k: Kernel)
    requires p.Shape()
    ensures p.Index(k) == k.hash % |p.queues|
  {
  }

  /** A thread takes a kernel from the common queue only if it has none of its own, and leaves only when
      all is to end and there is nothing that it could do. */
  lemma OwnQueueFirst(p: Pool, t: nat)
    requires p.Shape() && Enabled(p, Look(t))
    ensures var q := Step(p, Look(t));
            var first := if p.upstream == |p.threads| then 0 else p.upstream;
            var idle := forall i | 0 <= i < |p.queues| && t == first + i :: p.queues[i] == [];
            && (q.started != p.started ==> idle && t < p.upstream)
            && (q.threads[t] == Gone ==> idle && p.stopping && (t < p.upstream ==> p.common == []))
            && (!idle ==> q.threads[t].Running? && q.threads[t].own && q.common == p.common)
  {
    forall i | 0 <= i < |p.queues| && p.Server(i) == t ensures p.HasQueue(t) && p.QueueOf(t) == i {}
    if p.HasQueue(t) { assert p.Server(p.QueueOf(t)) == t; }
  }

  lemma InOrder(p0: Pool, p1: Pool, p2: Pool, p3: Pool, p4: Pool, k: Kernel, l: Kernel)
    requires p0.Shape() && Extends(p0, p1) && Extends(p1, p2) && Extends(p2, p3) && Extends(p3, p4)
    requires Arrives(p0, p1, k) && Arrives(p2, p3, l) && k.hash == l.hash
    ensures var s := p4.sentTo[p4.Index(k)]; exists u, v :: 0 <= u < v < |s| && s[u] == k && s[v] == l
  {
    var i := p0.Index(k);
    assert p4.Index(k) == p2.Index(l) == i;
    var u :| |p0.sentTo[i]| <= u < |p1.sentTo[i]| && p1.sentTo[i][u] == k;
    var v :| |p2.sentTo[i]| <= v < |p3.sentTo[i]| && p3.sentTo[i][v] == l;
    assert p2.sentTo[i][u] == k && p4.sentTo[i][u] == p3.sentTo[i][u] == k && p4.sentTo[i][v] == l;
  }
}
