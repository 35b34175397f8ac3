/** One end of a connection: it keeps the kernels that it has sent until they are answered, and when
    the connection is lost it decides what becomes of them. */
module Connection {

  datatype Phase = Upstream | Downstream | PointToPoint | Broadcast

  /** A parent or a principal: an object of this process, or the number of one elsewhere. */
  datatype Ref = Nobody | Object(o: nat) | Number(id: nat)

  datatype Result = Success | Undefined | Error | EndpointNotConnected | OtherResult

  /** `address` 0 is the empty address. */
  datatype Kernel = Kernel(id: nat, oldId: nat, phase: Phase, native: bool, carriesParent: bool, typeId: nat,
                           sourceApp: nat, targetApp: nat, source: nat, destination: nat,
                           parent: Ref, principal: Ref, result: Result) {

    function ParentObject(): Ref {
      if parent.Object? then parent else Nobody
    }

    /** The applications change places, too. */
    function ReturnedToParent(r: Result): Kernel {
      this.(principal := parent, result := r, destination := source, phase := Downstream,
            sourceApp := targetApp, targetApp := sourceApp)
    }
  }

  const ID_LIMIT := 0x1_0000_0000_0000_0000

  /** The answer `a` belongs to the saved kernel `b`. */
  predicate Match(a: Kernel, b: Kernel) {
    a.id == b.id && a.oldId == b.oldId && a.sourceApp == b.targetApp && a.native == b.native
  }

  /** The position of the first match, or the length of the queue. */
  function Position(a: Kernel, q: seq<Kernel>): (i: nat)
    ensures i <= |q| && (i < |q| ==> Match(a, q[i])) && forall j | 0 <= j < i :: !Match(a, q[j])
  {
    if q == [] || Match(a, q[0]) then 0 else Position(a, q[1..]) + 1
  }

  /** The search, field by field: the answer carries both numbers of the kernel, comes from the
      application that the kernel was sent to, and is native if the kernel is. */
  lemma {:induction false} FoundByFields(a: Kernel, q: seq<Kernel>)
    ensures var i := Position(a, q);
            && (i < |q| ==> a.id == q[i].id && a.oldId == q[i].oldId && a.sourceApp == q[i].targetApp
                            && a.native == q[i].native)
            && forall j | 0 <= j < i :: a.id != q[j].id || a.oldId != q[j].oldId || a.sourceApp != q[j].targetApp
                                        || a.native != q[j].native
  {
  }

  function Erased(q: seq<Kernel>, i: nat): seq<Kernel>
    requires i < |q|
  {
    q[..i] + q[i + 1..]
  }

  /** Native kernels that wait for an answer; only these get their numbers here. */
  predicate Own(k: Kernel) {
    k.native && (k.phase == Upstream || k.phase == PointToPoint)
  }

  ghost function OwnIds(q: seq<Kernel>): multiset<nat> {
    if q == [] then multiset{} else (if Own(q[0]) then multiset{q[0].id} else multiset{}) + OwnIds(q[1..])
  }

  lemma {:induction false} OwnIdsOfSum(q: seq<Kernel>, r: seq<Kernel>)
    ensures OwnIds(q + r) == OwnIds(q) + OwnIds(r)
  {
    if q == [] {
      assert q + r == r;
    } else {
      assert (q + r)[1..] == q[1..] + r;
      OwnIdsOfSum(q[1..], r);
    }
  }

  lemma OwnIdsOfOne(k: Kernel)
    ensures OwnIds([k]) == if Own(k) then multiset{k.id} else multiset{}
  {
    assert [k][1..] == [];
  }

  lemma OwnIdsFirst(q: seq<Kernel>) returns (moved: multiset<nat>)
    requires q != []
    ensures OwnIds(q) == OwnIds(q[1..]) + moved
  {
    moved := if Own(q[0]) then multiset{q[0].id} else multiset{};
  }

  lemma OwnIdsAppended(q: seq<Kernel>, k: Kernel)
    ensures OwnIds(q + [k]) == if Own(k) then OwnIds(q) + multiset{k.id} else OwnIds(q)
  {
    OwnIdsOfSum(q, [k]);
    OwnIdsOfOne(k);
  }

  lemma OwnIdsErased(q: seq<Kernel>, i: nat)
    requires i < |q|
    ensures OwnIds(q) == OwnIds(Erased(q, i)) + if Own(q[i]) then multiset{q[i].id} else multiset{}
  {
    hide OwnIds;
    assert q == q[..i] + ([q[i]] + q[i + 1..]);
    OwnIdsOfSum(q[..i], [q[i]] + q[i + 1..]);
    OwnIdsOfSum([q[i]], q[i + 1..]);
    OwnIdsOfOne(q[i]);
    OwnIdsOfSum(q[..i], q[i + 1..]);
  }

  /** All native kernels of the queue wait for an answer; there is no broadcast among them. */
  predicate OwnOnly(q: seq<Kernel>) {
    forall k <- q :: k.native ==> Own(k)
  }

  /** When numbers are distinct, the answer to an own kernel finds no other one after that: it is
      delivered once. Only a broadcast that happens to have the same number may be found. */
  lemma SecondAnswerFindsNothing(a: Kernel, q: seq<Kernel>, i: nat)
    requires forall x :: OwnIds(q)[x] <= 1
    requires i == Position(a, q) < |q| && Own(q[i])
    ensures Position(a, Erased(q, i)) == |Erased(q, i)| <==> forall k <- q :: Match(a, k) ==> Own(k)
    ensures OwnOnly(q) ==> Position(a, Erased(q, i)) == |Erased(q, i)|
  {
    var r := Erased(q, i);
    var h := Position(a, r);
    assert forall g | 0 <= g < |r| :: r[g] == q[if g < i then g else g + 1];
    if h < |r| {
      OwnIdsErased(q, i);
      OwnIdsErased(r, h);
      assert OwnIds(q)[a.id] <= 1;
    } else {
      forall j | 0 <= j < |q| && j != i ensures !Match(a, q[j]) {
        assert q[j] == r[if j < i then j else j - 1];
      }
    }
  }

  /** With distinct numbers an own kernel is the only one that its answer finds. */
  lemma OnlyMatch(a: Kernel, q: seq<Kernel>, i: nat)
    requires (forall x :: OwnIds(q)[x] <= 1) && OwnOnly(q) && i < |q| && Own(q[i])
    requires a.id == q[i].id && a.oldId == q[i].oldId && a.sourceApp == q[i].targetApp && a.native
    ensures Position(a, q) == i
  {
    var h := Position(a, q);
    hide OwnIds;
    if h < i && Own(q[h]) { OwnIdsDiffer(q, h, i); }
    assert h < |q| ==> q[h] in q;
  }

  lemma OwnIdsDiffer(q: seq<Kernel>, h: nat, i: nat)
    requires (forall x :: OwnIds(q)[x] <= 1) && h < i < |q| && Own(q[h]) && Own(q[i])
    ensures q[h].id != q[i].id
  {
    var r, x := Erased(q, i), q[i].id;
    assert r[h] == q[h];
    OwnIdsErased(q, i);
    OwnIdsErased(r, h);
    hide OwnIds, Erased;
    assert OwnIds(q)[x] <= 1;
  }

  /** All numbers that were given to saved kernels are different, and each one is still saved,
      answered or recovered. */
  ghost predicate Balanced(sent: multiset<nat>, saved: multiset<nat>, answered: multiset<nat>, recovered: multiset<nat>,
                           counter: nat) {
    (forall x :: sent[x] <= 1 && (x in sent ==> 1 < x <= counter)) && sent == saved + answered + recovered
  }

  lemma NewNumber(sent: multiset<nat>, saved: multiset<nat>, answered: multiset<nat>, recovered: multiset<nat>,
                  c: nat, d: nat)
    requires Balanced(sent, saved, answered, recovered, c) && 1 <= c <= d
    ensures Balanced(sent, saved, answered, recovered, d)
    ensures c < d ==> d !in sent && Balanced(sent + multiset{d}, saved + multiset{d}, answered, recovered, d)
  {
  }

  lemma AllSettled(sent: multiset<nat>, answered: multiset<nat>, recovered: multiset<nat>, c: nat)
    requires Balanced(sent, multiset{}, answered, recovered, c)
    ensures sent == answered + recovered
  {
  }

  lemma Settled(sent: multiset<nat>, saved: multiset<nat>, answered: multiset<nat>, recovered: multiset<nat>, c: nat,
                left: multiset<nat>, moved: multiset<nat>)
    requires Balanced(sent, saved, answered, recovered, c) && saved == left + moved
    ensures Balanced(sent, left, answered + moved, recovered, c) && Balanced(sent, left, answered, recovered + moved, c)
  {
  }

  datatype Fate = Trashed | Resent | Returned | Restored | Dropped

  /** What becomes of a saved kernel when the connection is lost. */
  function FateOf(k: Kernel, stopping: bool): Fate {
    if stopping then Trashed
    else if k.phase == Upstream && k.destination == 0 then Resent
    else if k.phase == PointToPoint || (k.phase == Upstream && k.destination != 0) then Returned
    else if k.phase == Downstream && k.carriesParent then Restored
    else Dropped
  }

  /** The kernel as it is handed over. */
  function Recovered(k: Kernel, stopping: bool): Kernel {
    if FateOf(k, stopping) == Returned then k.(source := k.destination).ReturnedToParent(EndpointNotConnected) else k
  }

  datatype Disposal = Disposal(kernel: Kernel, fate: Fate)

  ghost function Disposals(q: seq<Kernel>, stopping: bool): seq<Disposal> {
    seq(|q|, i requires 0 <= i < |q| => Disposal(Recovered(q[i], stopping), FateOf(q[i], stopping)))
  }

  /** What must become of an own kernel: without its parent being left behind, it is trashed, sent
      anew as it is, or returned to the parent as an answer with an error. */
  predicate Settles(k: Kernel, d: Disposal, stopping: bool) {
    var r := d.kernel;
    match d.fate
    case Trashed => stopping && r == k
    case Resent => !stopping && k.phase == Upstream && k.destination == 0 && r == k
    case Returned =>
      && !stopping && (k.phase == PointToPoint || k.destination != 0)
      && r.phase == Downstream && r.principal == k.parent && r.result == EndpointNotConnected
      && r.source == r.destination == k.destination && r.sourceApp == k.targetApp && r.targetApp == k.sourceApp
      && r.id == k.id && r.parent == k.parent
    case _ => false
  }

  lemma OwnIsSettled(k: Kernel, stopping: bool)
    requires Own(k)
    ensures Settles(k, Disposal(Recovered(k, stopping), FateOf(k, stopping)), stopping)
  {
  }

  class Connection {
    const saveUpstream: bool
    const saveDownstream: bool
    var counter: nat
    var upstream: seq<Kernel>
    var downstream: seq<Kernel>
    /** The numbers of the objects that are parents, as far as they have one. */
    var numbers: map<nat, nat>
    /** What was written, what went to the pipelines of this process, and what was recovered. */
    var written: seq<Kernel>
    var delivered: seq<Kernel>
    var disposed: seq<Disposal>
    /** The own kernels that were sent and saved, that were answered, and that were recovered. */
    ghost var sent: multiset<nat>
    ghost var answered: multiset<nat>
    ghost var recovered: multiset<nat>

    ghost predicate Valid()
      reads this
    {
      1 <= counter < ID_LIMIT && Balanced(sent, OwnIds(upstream), answered, recovered, counter)
    }

    constructor (saveUpstream: bool, saveDownstream: bool)
      ensures Valid() && counter == 1 && sent == multiset{} && upstream == downstream == []
    {
      this.saveUpstream, this.saveDownstream := saveUpstream, saveDownstream;
      counter, upstream, downstream, numbers := 1, [], [], map[];
      written, delivered, disposed := [], [], [];
      sent, answered, recovered := multiset{}, multiset{}, multiset{};
    }

    /** Every own kernel is in exactly one place. */
    lemma ExactlyOnce(x: nat)
      requires Valid()
      ensures sent[x] == OwnIds(upstream)[x] + answered[x] + recovered[x] <= 1
      ensures forall y <- OwnIds(upstream) :: y <= counter
    {
      forall y | y in OwnIds(upstream) ensures y <= counter { assert sent[y] != 0; }
    }

    method EnsureHasId(parent: Ref)
      requires counter + 1 < ID_LIMIT
      modifies this`counter, this`numbers
      ensures old(counter) <= counter <= old(counter) + 1
      ensures parent.Object? ==> parent.o in numbers && numbers[parent.o] != 0
      ensures forall o | o in old(numbers) && old(numbers)[o] != 0 :: o in numbers && numbers[o] == old(numbers)[o]
    {
      if parent.Object? && (parent.o !in numbers || numbers[parent.o] == 0) {
        counter := counter + 1;
        numbers := numbers[parent.o := counter];
      }
    }

    method SaveKernel(k: Kernel, principalId: nat) returns (saved: bool)
      modifies this`upstream, this`downstream
      ensures var up := (saveUpstream && (k.phase == Upstream || k.phase == PointToPoint))
                        || (k.phase == Broadcast && principalId != 0);
              var down := saveDownstream && k.phase == Downstream && k.carriesParent;
              && saved == (up || down)
              && upstream == (if up then old(upstream) + [k] else old(upstream))
              && downstream == (if down then old(downstream) + [k] else old(downstream))
    {
      saved := false;
      match k.phase
      case Upstream | PointToPoint =>
        if saveUpstream {
          upstream := upstream + [k];
          saved := true;
        }
      case Downstream =>
        if saveDownstream && k.carriesParent {
          downstream := downstream + [k];
          saved := true;
        }
      case Broadcast =>
        if principalId != 0 {
          upstream := upstream + [k];
          saved := true;
        }
    }

    /** Gives a new number to a kernel that will be answered, and one to its parent if it has none. */
    method Number(kernel: Kernel) returns (k: Kernel)
      requires kernel.native && counter + 2 < ID_LIMIT
      modifies this`counter, this`numbers
      ensures if Own(kernel) then k == kernel.(id := counter) && old(counter) < counter <= old(counter) + 2
              else k == kernel && counter == old(counter)
    {
      k := kernel;
      if kernel.phase == Upstream || kernel.phase == PointToPoint {
        EnsureHasId(kernel.parent);
        counter := counter + 1;
        k := kernel.(id := counter);
      }
    }

    /** Sends a native kernel; what waits for an answer gets a new number first. */
    method Send(kernel: Kernel, principalId: nat) returns (k: Kernel, saved: bool)
      requires Valid() && kernel.native && counter + 2 < ID_LIMIT
      requires Own(kernel) ==> kernel.parent.Object?
      modifies this`counter, this`numbers, this`written, this`upstream, this`downstream, this`sent
      ensures Valid() && written == old(written) + [k]
      ensures if Own(kernel) then k == kernel.(id := counter) && old(counter) < counter && counter !in old(sent)
              else k == kernel && counter == old(counter) && sent == old(sent)
      ensures Own(kernel) ==>
                saved == saveUpstream && sent == old(sent) + (if saved then multiset{k.id} else multiset{})
      ensures Own(kernel) && saved ==> upstream == old(upstream) + [k] && downstream == old(downstream)
      ensures OwnOnly(old(upstream)) && (kernel.phase == Broadcast ==> !saved) ==> OwnOnly(upstream)
    {
      hide OwnIds, Balanced;
      ghost var before := counter;
      k := Number(kernel);
      NewNumber(sent, OwnIds(upstream), answered, recovered, before, counter);
      written := written + [k];
      OwnIdsAppended(upstream, k);
      saved := SaveKernel(k, principalId);
      if Own(k) && saved { sent := sent + multiset{k.id}; }
    }

    /** Passes on a kernel under the number that it has. */
    method Forward(k: Kernel, principalId: nat) returns (saved: bool)
      requires Valid() && !k.native
      modifies this`written, this`upstream, this`downstream
      ensures Valid() && written == old(written) + [k]
      ensures saved && k.phase != Downstream ==> upstream == old(upstream) + [k]
      ensures OwnOnly(old(upstream)) ==> OwnOnly(upstream)
    {
      written := written + [k];
      OwnIdsAppended(upstream, k);
      saved := SaveKernel(k, principalId);
    }

    method FindKernel(a: Kernel, q: seq<Kernel>) returns (i: nat)
      ensures i == Position(a, q)
    {
      i := 0;
      while i < |q| && !Match(a, q[i])
        invariant i <= |q| && Position(a, q) == i + Position(a, q[i..])
        decreases |q| - i
      {
        assert q[i..][1..] == q[i + 1..];
        i := i + 1;
      }
      assert i < |q| ==> q[i..][0] == q[i];
    }

    /** Finds the kernel that is answered, takes it out, and gives its parent back to the answer. */
    method PlugParent(a: Kernel) returns (ok: bool, k: Kernel)
      requires Valid() && a.phase == Downstream && a.native
      modifies this`upstream, this`downstream, this`answered
      ensures Valid()
      ensures var i := Position(a, old(upstream));
              if a.id == 0 then !ok && upstream == old(upstream) && downstream == old(downstream)
              else if i < |old(upstream)| then
                var saved := old(upstream)[i];
                && ok && k == a.(parent := saved.ParentObject(), principal := saved.ParentObject(), id := saved.id)
                && upstream == Erased(old(upstream), i) && downstream == old(downstream)
                && answered == old(answered) + if Own(saved) then multiset{saved.id} else multiset{}
              else
                && upstream == old(upstream) && answered == old(answered)
                && ok == (a.carriesParent || a.typeId == 1)
                && (ok ==> k == if a.carriesParent then a.(principal := a.ParentObject()) else a)
                && var j := Position(a, old(downstream));
                   downstream == if a.carriesParent && j < |old(downstream)| then Erased(old(downstream), j)
                                 else old(downstream)
    {
      hide OwnIds, Balanced, Erased;
      k := a;
      if a.id == 0 { return false, k; }
      var i := FindKernel(a, upstream);
      if i == |upstream| {
        if a.carriesParent {
          k := a.(principal := a.ParentObject());
          var j := FindKernel(a, downstream);
          if j != |downstream| {
            downstream := Erased(downstream, j);
          }
        } else if a.typeId != 1 {
          return false, k;
        }
      } else {
        var saved := upstream[i];
        k := a.(parent := saved.ParentObject(), principal := saved.ParentObject(), id := saved.id);
        OwnIdsErased(upstream, i);
        ghost var moved := if Own(saved) then multiset{saved.id} else multiset{};
        Settled(sent, OwnIds(upstream), answered, recovered, counter, OwnIds(Erased(upstream, i)), moved);
        upstream := Erased(upstream, i);
        answered := answered + moved;
      }
      ok := true;
    }

    /** An answer reaches the pipeline with its parent, or it is refused and nothing changes. */
    method ReceiveAnswer(a: Kernel) returns (ok: bool)
      requires Valid() && a.phase == Downstream && a.native
      modifies this`upstream, this`downstream, this`answered, this`delivered
      ensures Valid()
      ensures !ok ==> delivered == old(delivered) && upstream == old(upstream) && downstream == old(downstream)
      ensures var i := Position(a, old(upstream));
              a.id != 0 && i < |old(upstream)| ==>
                var parent := old(upstream)[i].ParentObject();
                && ok && delivered == old(delivered) + [a.(parent := parent, principal := parent)]
                && upstream == Erased(old(upstream), i) && downstream == old(downstream)
      ensures a.id == 0 || Position(a, old(upstream)) == |old(upstream)| ==> upstream == old(upstream)
      ensures !a.carriesParent && a.typeId != 1 && (a.id == 0 || Position(a, old(upstream)) == |old(upstream)|) ==> !ok
    {
      var k;
      ok, k := PlugParent(a);
      if ok { delivered := delivered + [k]; }
    }

    /** The same answer once more, without a parent of its own: it is refused, and all that has come of
        the two is one kernel, if there was one that waited for it. */
    method ReceiveAnswerTwice(a: Kernel) returns (first: bool, second: bool)
      requires Valid() && a.phase == Downstream && a.native
      requires !a.carriesParent && a.typeId != 1
      requires forall k <- upstream :: Match(a, k) ==> Own(k)
      modifies this`upstream, this`downstream, this`answered, this`delivered
      ensures Valid() && !second
      ensures var i := Position(a, old(upstream));
              && (first <==> a.id != 0 && i < |old(upstream)|)
              && if first then
                   var parent := old(upstream)[i].ParentObject();
                   && delivered == old(delivered) + [a.(parent := parent, principal := parent)]
                   && upstream == Erased(old(upstream), i)
                 else delivered == old(delivered) && upstream == old(upstream)
    {
      hide OwnIds, Balanced, Erased;
      DistinctNumbers();
      ghost var q, i := upstream, Position(a, upstream);
      if i < |q| { SecondAnswerFindsNothing(a, q, i); }
      first := ReceiveAnswer(a);
      second := ReceiveAnswer(a);
    }

    /** An own kernel comes back: its answer is delivered to the parent that was kept, and of all saved
        kernels exactly this one is taken out. */
    method ReturnHome(i: nat, r: Result) returns (ok: bool)
      requires Valid() && OwnOnly(upstream)
      requires i < |upstream| && Own(upstream[i]) && upstream[i].parent.Object?
      modifies this`upstream, this`downstream, this`answered, this`delivered
      ensures Valid() && ok && upstream == old(upstream)[..i] + old(upstream)[i + 1..]
      ensures downstream == old(downstream) && |delivered| == |old(delivered)| + 1 && old(delivered) <= delivered
      ensures var b, d := old(upstream)[i], delivered[|old(delivered)|];
              && d.parent == d.principal == b.parent && d.result == r && d.phase == Downstream && d.id == b.id
              && d.sourceApp == b.targetApp && d.targetApp == b.sourceApp && d.destination == b.source
    {
      ghost var q := upstream;
      var a := upstream[i].ReturnedToParent(r);
      DistinctNumbers();
      OnlyMatch(a, q, i);
      OwnNumber(i);
      hide OwnIds, Balanced, OwnOnly;
      ok := ReceiveAnswer(a);
    }

    lemma OwnNumber(i: nat)
      requires Valid() && i < |upstream| && Own(upstream[i])
      ensures 1 < upstream[i].id
    {
      OwnIdsErased(upstream, i);
      assert upstream[i].id in sent;
    }

    /** The answer to something else leaves a saved kernel alone, be it delivered or not. */
    method AnswerElsewhere(i: nat, a: Kernel) returns (ok: bool, ghost h: nat)
      requires Valid() && a.phase == Downstream && a.native && i < |upstream|
      requires var b := upstream[i];
               a.sourceApp != b.targetApp || a.id != b.id || a.oldId != b.oldId || !b.native
      modifies this`upstream, this`downstream, this`answered, this`delivered
      ensures Valid() && h != i
      ensures upstream == old(upstream)
              || (h < |old(upstream)| && upstream == old(upstream)[..h] + old(upstream)[h + 1..])
    {
      FoundByFields(a, upstream);
      h := if Position(a, upstream) < |upstream| then Position(a, upstream) else i + 1;
      ok := ReceiveAnswer(a);
    }

    lemma DistinctNumbers()
      requires Valid()
      ensures forall x :: OwnIds(upstream)[x] <= 1
    {
      forall x ensures OwnIds(upstream)[x] <= 1 { ExactlyOnce(x); }
    }

    /** The answer to a kernel that is passed on takes the kernel out of the queue. */
    method ReceiveForeign(a: Kernel)
      requires Valid() && !a.native
      modifies this`upstream, this`written, this`delivered
      ensures Valid()
      ensures var i := Position(a, old(upstream));
              upstream == if a.phase == Downstream && i < |old(upstream)| then Erased(old(upstream), i)
                          else old(upstream)
      ensures if a.phase == Downstream && a.destination == 0
              then written == old(written) + [a] && delivered == old(delivered)
              else delivered == old(delivered) + [a] && written == old(written)
    {
      if a.phase == Downstream {
        var i := FindKernel(a, upstream);
        if i != |upstream| {
          OwnIdsErased(upstream, i);
          upstream := Erased(upstream, i);
        }
      }
      if a.phase == Downstream && a.destination == 0 {
        written := written + [a];
      } else {
        delivered := delivered + [a];
      }
    }

    method RecoverUpstream(stopping: bool)
      requires Valid()
      modifies this`upstream, this`disposed, this`recovered
      ensures Valid() && upstream == [] && recovered == old(recovered) + OwnIds(old(upstream))
      ensures disposed == old(disposed) + Disposals(old(upstream), stopping)
    {
      hide Disposals, OwnIds, Balanced, Own;
      ghost var queue, gone, settled := upstream, [], multiset{};
      Nothing(stopping);
      assert queue == [] + upstream;
      while upstream != []
        invariant Valid() && queue == gone + upstream && disposed == old(disposed) + Disposals(gone, stopping)
        invariant recovered == old(recovered) + settled && OwnIds(queue) == settled + OwnIds(upstream)
        decreases |upstream|
      {
        var k := upstream[0];
        ghost var moved := OwnIdsFirst(upstream);
        FirstOut(gone, upstream, k, stopping);
        Settled(sent, OwnIds(upstream), answered, recovered, counter, OwnIds(upstream[1..]), moved);
        upstream := upstream[1..];
        recovered, settled := recovered + moved, settled + moved;
        RecoverKernel(k, stopping);
        gone := gone + [k];
      }
      assert gone == queue;
    }

    method RecoverDownstream(stopping: bool)
      modifies this`downstream, this`disposed
      ensures downstream == [] && disposed == old(disposed) + Disposals(old(downstream), stopping)
    {
      ghost var queue, gone := downstream, [];
      while downstream != []
        invariant queue == gone + downstream && disposed == old(disposed) + Disposals(gone, stopping)
        decreases |downstream|
      {
        hide Disposals;
        var k := downstream[0];
        FirstOut(gone, downstream, k, stopping);
        downstream := downstream[1..];
        RecoverKernel(k, stopping);
        gone := gone + [k];
      }
      assert gone == queue;
    }

    /** Empties the queues from the front; every saved kernel meets its fate once, in the order in
        which the kernels were saved. */
    method RecoverKernels(down: bool, stopping: bool)
      requires Valid()
      modifies this`upstream, this`downstream, this`disposed, this`recovered
      ensures Valid() && upstream == [] && downstream == (if down then [] else old(downstream))
      ensures recovered == old(recovered) + OwnIds(old(upstream)) && sent == answered + recovered
      ensures var q, n := old(upstream) + (if down then old(downstream) else []), |old(disposed)|;
              && disposed == old(disposed) + Disposals(q, stopping)
              && (forall i | 0 <= i < |q| && Own(q[i]) :: Settles(q[i], disposed[n + i], stopping))
    {
      AllOwnAreSettled(upstream + (if down then downstream else []), stopping);
      hide Disposals, Balanced, Settles;
      RecoverUpstream(stopping);
      AllSettled(sent, answered, recovered, counter);
      if down {
        RecoverDownstream(stopping);
        DisposalsOfSum(old(upstream), old(downstream), stopping);
      } else {
        assert old(upstream) + [] == old(upstream);
      }
    }

    method RecoverKernel(k: Kernel, stopping: bool)
      modifies this`disposed
      ensures disposed == old(disposed) + [Disposal(Recovered(k, stopping), FateOf(k, stopping))]
    {
      var r, fate := k, Dropped;
      if stopping {
        fate := Trashed;
      } else if k.phase == Upstream && k.destination == 0 {
        fate := Resent;
      } else if k.phase == PointToPoint || (k.phase == Upstream && k.destination != 0) {
        r := k.(source := k.destination);
        r := r.ReturnedToParent(EndpointNotConnected);
        fate := Returned;
      } else if k.phase == Downstream && k.carriesParent {
        fate := Restored;
      }
      disposed := disposed + [Disposal(r, fate)];
    }
  }

  lemma DisposalsOfSum(q: seq<Kernel>, r: seq<Kernel>, stopping: bool)
    ensures Disposals(q + r, stopping) == Disposals(q, stopping) + Disposals(r, stopping)
  {
  }

  lemma AllOwnAreSettled(q: seq<Kernel>, stopping: bool)
    ensures |Disposals(q, stopping)| == |q|
    ensures forall i | 0 <= i < |q| && Own(q[i]) :: Settles(q[i], Disposals(q, stopping)[i], stopping)
  {
    forall i | 0 <= i < |q| && Own(q[i]) ensures Settles(q[i], Disposals(q, stopping)[i], stopping) {
      OwnIsSettled(q[i], stopping);
    }
  }

  lemma Nothing(stopping: bool)
    ensures Disposals([], stopping) == [] && OwnIds([]) == multiset{}
  {
  }

  lemma FirstOut(gone: seq<Kernel>, q: seq<Kernel>, k: Kernel, stopping: bool)
    requires q != [] && k == q[0]
    ensures gone + q == (gone + [k]) + q[1..]
    ensures Disposals(gone + [k], stopping)
            == Disposals(gone, stopping) + [Disposal(Recovered(k, stopping), FateOf(k, stopping))]
  {
  }
}
