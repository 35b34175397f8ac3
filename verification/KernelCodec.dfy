/** Kernels as bytes, and the nodes that pass kernels on without knowing their types. */
module KernelCodec {
  import opened Buffer
  import opened Expression
  import E = ExpressionCodec

  /** An application is known by its number or sent along; its own fields are not looked into. */
  datatype App = AppId(id: nat) | AppSent(bytes: seq<Byte>)

  /** The two flags say that the field was set when the header was read; a header is written with an
      address if the flag is set or the address is not empty. */
  datatype Header = Header(sourceApp: App, targetApp: App, source: seq<Byte>, destination: seq<Byte>,
                           sourceRead: bool, destinationRead: bool, hasFilter: bool) {
    predicate HasSource() { sourceRead || source != [] }
    predicate HasDestination() { destinationRead || destination != [] }

    function Fields(): nat {
      (if HasSource() then 1 else 0) + (if HasDestination() then 2 else 0)
      + (if sourceApp.AppSent? then 4 else 0) + (if targetApp.AppSent? then 8 else 0) + (if hasFilter then 16 else 0)
    }
  }

  datatype Filter = NoFilter | Filter(e: Expr)

  datatype Body = Body(result: nat, id: nat, oldId: nat, at: nat, flags: nat, parentId: nat, principalId: nat,
                       phase: nat, path: seq<Byte>, weight: nat, filter: Filter) {
    function Fixed(): (r: seq<nat>)
      ensures |r| == |FIXED|
    {
      [result, id, oldId, at, flags, parentId, principalId, phase]
    }
  }

  const FIXED: seq<nat> := [2, 8, 8, 8, 4, 8, 8, 1]

  /** The payload is all that the type of the kernel adds, its carried parent included. */
  datatype Kernel = Kernel(h: Header, typeId: nat, b: Body, payload: seq<Byte>)

  predicate FitsApp(a: App) {
    match a
    case AppId(n) => n < Power(8)
    case AppSent(s) => |s| < Power(8)
  }

  ghost predicate Typed(k: Kernel) {
    && FitsApp(k.h.sourceApp) && FitsApp(k.h.targetApp) && |k.h.source| < Power(2) && |k.h.destination| < Power(2)
    && k.typeId < Power(2) && (forall i :: 0 <= i < |FIXED| ==> k.b.Fixed()[i] < Power(FIXED[i]))
    && |k.b.path| < Power(8) && k.b.weight < Power(4)
    && k.h.hasFilter == k.b.filter.Filter? && (k.h.hasFilter ==> E.WellTyped(k.b.filter.e))
  }

  const PARENT_IS_ID := 4
  const PRINCIPAL_IS_ID := 8

  function SetBit(flags: nat, bit: nat): nat
    requires 0 < bit
  {
    if (flags / bit) % 2 == 1 then flags else flags + bit
  }

  /** After reading, the parent and the principal are known by their numbers. */
  function WithIds(flags: nat): nat {
    SetBit(SetBit(flags, PARENT_IS_ID), PRINCIPAL_IS_ID)
  }

  function ReadHeader(h: Header): Header {
    h.(sourceRead := h.HasSource(), destinationRead := h.HasDestination())
  }

  /** The kernel as it is on arrival. */
  function Arrived(k: Kernel): Kernel {
    k.(h := ReadHeader(k.h), b := k.b.(flags := WithIds(k.b.flags)))
  }

  // ---------------------------------------------------------------------------
  // Writing.

  function PutIntegers(vs: seq<nat>, ws: seq<nat>): seq<Byte>
    requires |vs| == |ws|
  {
    if ws == [] then [] else BigEndian(vs[0], ws[0]) + PutIntegers(vs[1..], ws[1..])
  }

  function PutBytes(s: seq<Byte>, width: nat): seq<Byte> {
    BigEndian(|s|, width) + s
  }

  function PutApp(a: App): seq<Byte> {
    if a.AppSent? then PutBytes(a.bytes, 8) else BigEndian(a.id, 8)
  }

  function PutHeader(h: Header): seq<Byte> {
    BigEndian(h.Fields(), 1) + (PutApp(h.sourceApp) + (PutApp(h.targetApp)
    + ((if h.HasSource() then PutBytes(h.source, 2) else [])
       + (if h.HasDestination() then PutBytes(h.destination, 2) else []))))
  }

  function PutBody(b: Body): seq<Byte>
    requires b.filter.Filter? ==> E.WellTyped(b.filter.e)
  {
    PutIntegers(b.Fixed(), FIXED) + (PutBytes(b.path, 8) + (BigEndian(b.weight, 4)
    + (if b.filter.Filter? then E.Encode(b.filter.e) else [])))
  }

  function Encode(k: Kernel): seq<Byte>
    requires k.b.filter.Filter? ==> E.WellTyped(k.b.filter.e)
  {
    PutHeader(k.h) + (BigEndian(k.typeId, 2) + (PutBody(k.b) + k.payload))
  }

  // ---------------------------------------------------------------------------
  // Reading.

  function TakeIntegers(s: seq<Byte>, ws: seq<nat>): (r: Decoded<seq<nat>>)
    ensures r.Done? ==> |r.value| == |ws|
  {
    if ws == [] then Done([], s)
    else
      var v := TakeInteger(s, ws[0]);
      if v.Fail? then Fail(v.error)
      else
        var r := TakeIntegers(v.rest, ws[1..]);
        if r.Fail? then r else Done([v.value] + r.value, r.rest)
  }

  function TakeSized(s: seq<Byte>, width: nat): Decoded<seq<Byte>> {
    var n := TakeInteger(s, width);
    if n.Fail? then Fail(n.error) else TakeBytes(n.rest, n.value)
  }

  function TakeApp(s: seq<Byte>, sent: bool): Decoded<App> {
    if sent then
      var r := TakeSized(s, 8);
      if r.Fail? then Fail(r.error) else Done(AppSent(r.value), r.rest)
    else
      var r := TakeInteger(s, 8);
      if r.Fail? then Fail(r.error) else Done(AppId(r.value), r.rest)
  }

  function TakeAddress(s: seq<Byte>, present: bool): Decoded<seq<Byte>> {
    if present then TakeSized(s, 2) else Done([], s)
  }

  function Bit(n: nat, bit: nat): bool
    requires 0 < bit
  {
    (n / bit) % 2 == 1
  }

  function TakeHeader(s: seq<Byte>): Decoded<Header> {
    var f := TakeInteger(s, 1);
    if f.Fail? then Fail(f.error)
    else
      var n := f.value;
      var a := TakeApp(f.rest, Bit(n, 4));
      if a.Fail? then Fail(a.error)
      else
        var b := TakeApp(a.rest, Bit(n, 8));
        if b.Fail? then Fail(b.error)
        else
          var c := TakeAddress(b.rest, Bit(n, 1));
          if c.Fail? then Fail(c.error)
          else
            var d := TakeAddress(c.rest, Bit(n, 2));
            if d.Fail? then Fail(d.error)
            else Done(Header(a.value, b.value, c.value, d.value, Bit(n, 1), Bit(n, 2), Bit(n, 16)), d.rest)
  }

  function TakeFilter(s: seq<Byte>, present: bool): Decoded<Filter> {
    if !present then Done(NoFilter, s)
    else
      var e := E.Decode(s);
      if e.Fail? then Fail(e.error) else Done(Filter(e.value), e.rest)
  }

  function TakeBody(s: seq<Byte>, hasFilter: bool): Decoded<Body> {
    var f := TakeIntegers(s, FIXED);
    if f.Fail? then Fail(f.error)
    else
      var p := TakeSized(f.rest, 8);
      if p.Fail? then Fail(p.error)
      else
        var w := TakeInteger(p.rest, 4);
        if w.Fail? then Fail(w.error)
        else
          var e := TakeFilter(w.rest, hasFilter);
          if e.Fail? then Fail(e.error)
          else
            var v := f.value;
            Done(Body(v[0], v[1], v[2], v[3], WithIds(v[4]), v[5], v[6], v[7], p.value, w.value, e.value), e.rest)
  }

  /** A kernel is read up to the end of its frame. */
  function Decode(s: seq<Byte>): Decoded<Kernel> {
    var h := TakeHeader(s);
    if h.Fail? then Fail(h.error)
    else
      var t := TakeInteger(h.rest, 2);
      if t.Fail? then Fail(t.error)
      else
        var b := TakeBody(t.rest, h.value.hasFilter);
        if b.Fail? then Fail(b.error) else Done(Kernel(h.value, t.value, b.value, b.rest), [])
  }

  // ---------------------------------------------------------------------------
  // The round trip.

  lemma {:induction false} IntegersTaken(vs: seq<nat>, ws: seq<nat>, rest: seq<Byte>)
    requires |vs| == |ws| && forall i :: 0 <= i < |ws| ==> vs[i] < Power(ws[i])
    ensures TakeIntegers(PutIntegers(vs, ws) + rest, ws) == Done(vs, rest)
  {
    if ws == [] {
      assert PutIntegers(vs, ws) + rest == rest;
    } else {
      var later := PutIntegers(vs[1..], ws[1..]) + rest;
      assert PutIntegers(vs, ws) + rest == BigEndian(vs[0], ws[0]) + later;
      TakeWritten(vs[0], ws[0], later);
      forall i | 0 <= i < |ws| - 1 ensures vs[1..][i] < Power(ws[1..][i]) { assert vs[i + 1] < Power(ws[i + 1]); }
      IntegersTaken(vs[1..], ws[1..], rest);
      assert vs == [vs[0]] + vs[1..];
    }
  }

  lemma SizedTaken(s: seq<Byte>, width: nat, rest: seq<Byte>)
    requires |s| < Power(width)
    ensures TakeSized(PutBytes(s, width) + rest, width) == Done(s, rest)
  {
    assert PutBytes(s, width) + rest == BigEndian(|s|, width) + (s + rest);
    TakeWritten(|s|, width, s + rest);
    TakeBytesWritten(s, rest);
  }

  lemma AppTaken(a: App, rest: seq<Byte>)
    requires FitsApp(a)
    ensures TakeApp(PutApp(a) + rest, a.AppSent?) == Done(a, rest)
  {
    if a.AppSent? {
      SizedTaken(a.bytes, 8, rest);
    } else {
      TakeWritten(a.id, 8, rest);
    }
  }

  lemma AddressTaken(s: seq<Byte>, present: bool, rest: seq<Byte>)
    requires |s| < Power(2) && (s != [] ==> present)
    ensures TakeAddress((if present then PutBytes(s, 2) else []) + rest, present) == Done(s, rest)
  {
    if present {
      SizedTaken(s, 2, rest);
    } else {
      assert [] + rest == rest;
    }
  }

  lemma FieldBits(h: Header)
    ensures var n := h.Fields();
            && n < Power(1) && Bit(n, 1) == h.HasSource() && Bit(n, 2) == h.HasDestination()
            && Bit(n, 4) == h.sourceApp.AppSent? && Bit(n, 8) == h.targetApp.AppSent? && Bit(n, 16) == h.hasFilter
  {
    Widths();
  }

  lemma HeaderTaken(h: Header, rest: seq<Byte>)
    requires FitsApp(h.sourceApp) && FitsApp(h.targetApp) && |h.source| < Power(2) && |h.destination| < Power(2)
    ensures TakeHeader(PutHeader(h) + rest) == Done(ReadHeader(h), rest)
  {
    FieldBits(h);
    hide Power, BigEndian, Bit, PutApp, TakeApp, PutBytes, TakeAddress, TakeInteger, FitsApp, Header.Fields;
    var d := (if h.HasDestination() then PutBytes(h.destination, 2) else []) + rest;
    var c := (if h.HasSource() then PutBytes(h.source, 2) else []) + d;
    var b := PutApp(h.targetApp) + c;
    var a := PutApp(h.sourceApp) + b;
    assert PutHeader(h) + rest == BigEndian(h.Fields(), 1) + a;
    TakeWritten(h.Fields(), 1, a);
    AppTaken(h.sourceApp, b);
    AppTaken(h.targetApp, c);
    AddressTaken(h.source, h.HasSource(), d);
    AddressTaken(h.destination, h.HasDestination(), rest);
  }

  /** A filter is read back exactly if it is encodable. */
  lemma FilterTaken(f: Filter, rest: seq<Byte>)
    requires f.Filter? ==> E.WellTyped(f.e)
    ensures var r := TakeFilter((if f.Filter? then E.Encode(f.e) else []) + rest, f.Filter?);
            if f.Filter? && !E.Encodable(f.e) then r.Fail? || r.value != f else r == Done(f, rest)
  {
    if f.Filter? {
      E.BinaryRoundTrip(f.e, rest);
    } else {
      assert [] + rest == rest;
    }
  }

  lemma BodyTaken(b: Body, rest: seq<Byte>)
    requires (forall i :: 0 <= i < |FIXED| ==> b.Fixed()[i] < Power(FIXED[i])) && |b.path| < Power(8)
             && b.weight < Power(4)
    requires b.filter.Filter? ==> E.WellTyped(b.filter.e)
    ensures var r := TakeBody(PutBody(b) + rest, b.filter.Filter?);
            if b.filter.Filter? && !E.Encodable(b.filter.e) then r.Fail? || r.value.filter != b.filter
            else r == Done(b.(flags := WithIds(b.flags)), rest)
  {
    hide Power, BigEndian, PutIntegers, TakeIntegers, PutBytes, TakeSized, TakeInteger, TakeFilter, WithIds;
    var e := (if b.filter.Filter? then E.Encode(b.filter.e) else []) + rest;
    var w := BigEndian(b.weight, 4) + e;
    var p := PutBytes(b.path, 8) + w;
    assert PutBody(b) + rest == PutIntegers(b.Fixed(), FIXED) + p;
    IntegersTaken(b.Fixed(), FIXED, p);
    SizedTaken(b.path, 8, w);
    TakeWritten(b.weight, 4, e);
    FilterTaken(b.filter, rest);
  }

  /** A kernel arrives as it was sent exactly if its filter is encodable. */
  lemma KernelRoundTrip(k: Kernel)
    requires Typed(k)
    ensures Decode(Encode(k)) == Done(Arrived(k), []) <==> (k.h.hasFilter ==> E.Encodable(k.b.filter.e))
  {
    var b := PutBody(k.b) + k.payload;
    var t := BigEndian(k.typeId, 2) + b;
    HeaderTaken(k.h, t);
    TakeWritten(k.typeId, 2, b);
    BodyTaken(k.b, k.payload);
    hide PutHeader, TakeHeader, PutBody, TakeBody, BigEndian, TakeInteger, WithIds, Power;
    assert Encode(k) == PutHeader(k.h) + t;
  }

  // ---------------------------------------------------------------------------
  // Passing on.

  /** The connection on which a kernel arrives sets its source if it knows its own peer. */
  function ReceivedFrom(k: Kernel, peer: seq<Byte>): Kernel {
    if peer == [] then k else k.(h := k.h.(source := peer))
  }

  function WithoutSource(k: Kernel): Kernel {
    k.(h := k.h.(source := [], sourceRead := false))
  }

  lemma IdsAreSet(flags: nat)
    ensures WithIds(WithIds(flags)) == WithIds(flags)
    ensures flags < 0x1_0000_0000 ==> WithIds(flags) < 0x1_0000_0000
    ensures Bit(WithIds(flags), PARENT_IS_ID) && Bit(WithIds(flags), PRINCIPAL_IS_ID)
  {
    var f := SetBit(flags, PARENT_IS_ID);
    BitSet(flags, PARENT_IS_ID);
    BitSet(f, PRINCIPAL_IS_ID);
    assert (f + 8) / 4 == f / 4 + 2;
  }

  lemma BitSet(flags: nat, bit: nat)
    requires bit == 4 || bit == 8
    ensures (SetBit(flags, bit) / bit) % 2 == 1
    ensures flags < 0x1_0000_0000 ==> SetBit(flags, bit) < 0x1_0000_0000
  {
    assert (flags + bit) / bit == flags / bit + 1;
  }

  lemma ArrivedIsTyped(k: Kernel, peer: seq<Byte>)
    requires Typed(k) && |peer| < Power(2)
    ensures Typed(ReceivedFrom(Arrived(k), peer)) && Arrived(Arrived(k)) == Arrived(k)
  {
    IdsAreSet(k.b.flags);
    Widths();
    var r := ReceivedFrom(Arrived(k), peer);
    forall i | 0 <= i < |FIXED| ensures r.b.Fixed()[i] < Power(FIXED[i]) {
      assert k.b.Fixed()[i] < Power(FIXED[i]);
    }
  }

  /** The bytes that leave the last one of some nodes on the way: each of them reads the kernel
      without knowing its type, and writes it again. `peers` are the addresses from which it came. */
  function Forwarded(s: seq<Byte>, peers: seq<seq<Byte>>): Decoded<seq<Byte>>
    decreases |peers|
  {
    if peers == [] then Done(s, [])
    else
      var k := Decode(s);
      if k.Fail? then Fail(k.error)
      else
        var r := ReceivedFrom(k.value, peers[0]);
        if r.b.filter.Filter? && !E.WellTyped(r.b.filter.e) then Fail(BadType) else Forwarded(Encode(r), peers[1..])
  }

  /** On whatever way a kernel comes, it is read as if it had come directly, but for its source. */
  lemma {:induction false} ForwardingIsTransparent(k: Kernel, peers: seq<seq<Byte>>)
    requires Typed(k) && (k.h.hasFilter ==> E.Encodable(k.b.filter.e)) && forall p <- peers :: |p| < Power(2)
    ensures var s := Forwarded(Encode(k), peers);
            s.Done? && Decode(s.value).Done? && WithoutSource(Decode(s.value).value) == WithoutSource(Arrived(k))
    decreases |peers|
  {
    KernelRoundTrip(k);
    if peers != [] {
      var r := ReceivedFrom(Arrived(k), peers[0]);
      ArrivedIsTyped(k, peers[0]);
      hide Decode, Encode, Typed, Power, WithIds;
      ForwardingIsTransparent(r, peers[1..]);
      assert WithoutSource(Arrived(r)) == WithoutSource(Arrived(k));
    }
  }

  /** Received from the same peer in the end, the two cannot be told apart by anyone who writes and
      reads them again. */
  lemma SameBytes(k: Kernel, peers: seq<seq<Byte>>, last: seq<Byte>)
    requires Typed(k) && (k.h.hasFilter ==> E.Encodable(k.b.filter.e)) && (forall p <- peers :: |p| < Power(2))
             && last != []
    ensures var s := Forwarded(Encode(k), peers);
            s.Done? && Decode(s.value).Done? &&
            var direct, passed := ReceivedFrom(Arrived(k), last), ReceivedFrom(Decode(s.value).value, last);
            (passed.b.filter.Filter? ==> E.WellTyped(passed.b.filter.e)) && Encode(passed) == Encode(direct)
  {
    ForwardingIsTransparent(k, peers);
    var passed := Decode(Forwarded(Encode(k), peers).value).value;
    var direct := ReceivedFrom(Arrived(k), last);
    assert WithoutSource(passed) == WithoutSource(Arrived(k));
    hide Decode, Encode, Forwarded;
    assert PutHeader(ReceivedFrom(passed, last).h) == PutHeader(direct.h);
    SameEncoding(ReceivedFrom(passed, last), direct);
  }

  lemma SameEncoding(a: Kernel, b: Kernel)
    requires a.b == b.b && a.typeId == b.typeId && a.payload == b.payload && PutHeader(a.h) == PutHeader(b.h)
    requires a.b.filter.Filter? ==> E.WellTyped(a.b.filter.e)
    ensures Encode(a) == Encode(b)
  {
  }

  // ---------------------------------------------------------------------------
  // The same on a buffer.

  method GetSized(in_: ByteBuffer, width: nat) returns (r: Decoded<seq<Byte>>)
    requires in_.Valid()
    modifies in_`position
    ensures in_.Valid() && TakeSized(old(in_.Unread()), width) == if r.Done? then Done(r.value, in_.Unread()) else r
  {
    var n := in_.GetInteger(width);
    if n.Fail? { return Fail(n.error); }
    ghost var u := in_.Unread();
    var ok, s := in_.Get(n.value);
    if !ok { return Fail(RangeError); }
    assert u[..n.value] == s && u[n.value..] == in_.Unread();
    r := Done(s, []);
  }

  /** A kernel of a type that is not known here: the bytes of its own fields are kept as they are. */
  class ForeignKernel {
    var h: Header
    var typeId: nat
    var b: Body
    var payload: seq<Byte>

    ghost function Value(): Kernel
      reads this
    {
      Kernel(h, typeId, b, payload)
    }

    constructor ()
    {
      h := Header(AppId(0), AppId(0), [], [], false, false, false);
      typeId := 0;
      b := Body(1, 0, 0, 0, 0, 0, 0, 1, [], 1, NoFilter);
      payload := [];
    }

    method ReadApp(in_: ByteBuffer, sent: bool) returns (r: Decoded<App>)
      requires in_.Valid()
      modifies in_`position
      ensures in_.Valid() && TakeApp(old(in_.Unread()), sent) == if r.Done? then Done(r.value, in_.Unread()) else r
    {
      if sent {
        var s := GetSized(in_, 8);
        r := if s.Fail? then Fail(s.error) else Done(AppSent(s.value), []);
      } else {
        var n := in_.GetInteger(8);
        r := if n.Fail? then Fail(n.error) else Done(AppId(n.value), []);
      }
    }

    method ReadAddress(in_: ByteBuffer, present: bool) returns (r: Decoded<seq<Byte>>)
      requires in_.Valid()
      modifies in_`position
      ensures in_.Valid()
      ensures TakeAddress(old(in_.Unread()), present) == if r.Done? then Done(r.value, in_.Unread()) else r
    {
      if present { r := GetSized(in_, 2); } else { r := Done([], []); }
    }

    method ReadHeader(in_: ByteBuffer) returns (ok: bool)
      requires in_.Valid()
      modifies this`h, in_`position
      ensures in_.Valid() && (ok <==> TakeHeader(old(in_.Unread())).Done?)
      ensures ok ==> TakeHeader(old(in_.Unread())) == Done(h, in_.Unread())
    {
      hide TakeApp, TakeAddress, Bit, TakeInteger;
      var f := in_.GetInteger(1);
      if f.Fail? { return false; }
      var sourceApp := ReadApp(in_, Bit(f.value, 4));
      if sourceApp.Fail? { return false; }
      var targetApp := ReadApp(in_, Bit(f.value, 8));
      if targetApp.Fail? { return false; }
      var source := ReadAddress(in_, Bit(f.value, 1));
      if source.Fail? { return false; }
      var destination := ReadAddress(in_, Bit(f.value, 2));
      if destination.Fail? { return false; }
      h := Header(sourceApp.value, targetApp.value, source.value, destination.value,
                  Bit(f.value, 1), Bit(f.value, 2), Bit(f.value, 16));
      ok := true;
    }

    method ReadIntegers(in_: ByteBuffer, widths: seq<nat>) returns (ok: bool, v: seq<nat>)
      requires in_.Valid()
      modifies in_`position
      ensures in_.Valid() && (ok <==> TakeIntegers(old(in_.Unread()), widths).Done?)
      ensures ok ==> TakeIntegers(old(in_.Unread()), widths) == Done(v, in_.Unread())
    {
      v := [];
      ghost var all := TakeIntegers(in_.Unread(), widths);
      var ws := widths;
      assert all.Done? ==> v + all.value == all.value;
      while ws != []
        invariant in_.Valid()
        invariant var r := TakeIntegers(in_.Unread(), ws);
                  all == if r.Fail? then r else Done(v + r.value, r.rest)
        decreases |ws|
      {
        var n := in_.GetInteger(ws[0]);
        if n.Fail? { return false, []; }
        ghost var r := TakeIntegers(in_.Unread(), ws[1..]);
        assert r.Done? ==> v + ([n.value] + r.value) == (v + [n.value]) + r.value;
        v, ws := v + [n.value], ws[1..];
      }
      assert v + [] == v;
      ok := true;
    }

    method ReadBody(in_: ByteBuffer) returns (ok: bool)
      requires in_.Valid()
      modifies this`b, in_`position
      ensures in_.Valid() && (ok <==> TakeBody(old(in_.Unread()), h.hasFilter).Done?)
      ensures ok ==> TakeBody(old(in_.Unread()), h.hasFilter) == Done(b, in_.Unread())
    {
      hide TakeIntegers, TakeSized, WithIds, TakeInteger, E.Decode;
      var fixed, v := ReadIntegers(in_, FIXED);
      if !fixed { return false; }
      var path := GetSized(in_, 8);
      if path.Fail? { return false; }
      var weight := in_.GetInteger(4);
      if weight.Fail? { return false; }
      var filter := NoFilter;
      if h.hasFilter {
        var e := E.Read(in_);
        if e.Fail? { return false; }
        filter := Filter(e.value);
      }
      b := Body(v[0], v[1], v[2], v[3], WithIds(v[4]), v[5], v[6], v[7], path.value, weight.value, filter);
      ok := true;
    }

    /** Reads up to the limit of the buffer, the end of the frame. */
    method Read(in_: ByteBuffer) returns (ok: bool)
      requires in_.Valid()
      modifies this, in_`position
      ensures in_.Valid() && (ok <==> Decode(old(in_.Unread())).Done?)
      ensures ok ==> Decode(old(in_.Unread())) == Done(Value(), in_.Unread()) && in_.Unread() == []
    {
      hide TakeHeader, TakeBody, TakeInteger;
      var header := ReadHeader(in_);
      if !header { return false; }
      var t := in_.GetInteger(2);
      if t.Fail? { return false; }
      typeId := t.value;
      var body := ReadBody(in_);
      if !body { return false; }
      ghost var rest := in_.Unread();
      var enough;
      enough, payload := in_.Get(in_.limit - in_.position);
      assert payload == rest;
      ok := true;
    }

    method Write(out: ByteBuffer)
      requires out.Valid() && (b.filter.Filter? ==> E.WellTyped(b.filter.e))
      modifies out
      ensures out.Valid() && out.Written() == old(out.Written()) + Encode(Value())
    {
      EncodeParts(Value());
      hide PutHeader, BigEndian, PutIntegers, PutBytes, E.Encode, Encode;
      out.Put(PutHeader(h));
      out.Put(BigEndian(typeId, 2));
      out.Put(PutIntegers(b.Fixed(), FIXED));
      out.Put(PutBytes(b.path, 8));
      out.Put(BigEndian(b.weight, 4));
      if b.filter.Filter? { E.Write(b.filter.e, out); }
      out.Put(payload);
      Regroup(old(out.Written()), PutHeader(h), BigEndian(typeId, 2), PutIntegers(b.Fixed(), FIXED),
              PutBytes(b.path, 8), BigEndian(b.weight, 4), if b.filter.Filter? then E.Encode(b.filter.e)
                else [], payload);
    }
  }

  lemma EncodeParts(k: Kernel)
    requires k.b.filter.Filter? ==> E.WellTyped(k.b.filter.e)
    ensures var filter: seq<Byte> := if k.b.filter.Filter? then E.Encode(k.b.filter.e) else [];
            Encode(k) ==
              PutHeader(k.h)
              + (BigEndian(k.typeId, 2)
                 + ((PutIntegers(k.b.Fixed(), FIXED) + (PutBytes(k.b.path, 8) + (BigEndian(k.b.weight, 4) + filter)))
                    + k.payload))
  {
  }

  lemma Regroup(w: seq<Byte>, a: seq<Byte>, b: seq<Byte>, c: seq<Byte>, d: seq<Byte>, e: seq<Byte>, f: seq<Byte>,
                g: seq<Byte>)
    ensures w + (a + (b + ((c + (d + (e + f))) + g))) == w + a + b + c + d + e + f + g
    ensures f == [] ==> w + a + b + c + d + e + f + g == w + a + b + c + d + e + g
  {
  }
}
