/** Kernels travel in frames: the size of the frame and then its payload. The receiver gets the bytes
    in arbitrary pieces. */
module Framing {
  import opened Buffer

  type Payload = seq<Byte>

  const HEADER := 4

  predicate Fits(p: Payload) {
    |p| + HEADER < 0x1_0000_0000
  }

  function Frame(p: Payload): seq<Byte> {
    BigEndian(|p| + HEADER, HEADER) + p
  }

  /** What the writer puts into the stream; an empty payload leaves no trace. */
  function Stream(ps: seq<Payload>): seq<Byte> {
    if ps == [] then [] else (if ps[0] == [] then [] else Frame(ps[0])) + Stream(ps[1..])
  }

  predicate NonEmpty(p: Payload) {
    p != [] && Fits(p)
  }

  /** Payloads that a writer can have sent. */
  ghost predicate Sendable(ps: seq<Payload>) {
    forall p <- ps :: NonEmpty(p)
  }

  lemma {:induction false} StreamOfSum(ps: seq<Payload>, qs: seq<Payload>)
    ensures Stream(ps + qs) == Stream(ps) + Stream(qs)
  {
    if ps == [] {
      assert ps + qs == qs;
    } else {
      assert (ps + qs)[1..] == ps[1..] + qs;
      StreamOfSum(ps[1..], qs);
    }
  }

  lemma {:induction false} BytesOf(s: seq<Byte>)
    ensures BigEndian(Value(s), |s|) == s
  {
    if s != [] {
      var n := |s| - 1;
      BytesOf(s[..n]);
      assert Value(s) / 256 == Value(s[..n]) && Value(s) % 256 == s[n];
    }
  }

  /** The size at the beginning of a stream is that of its first frame. */
  lemma FirstFrame(ps: seq<Payload>, u: seq<Byte>)
    requires Sendable(ps) && u <= Stream(ps)
    ensures u != [] ==> ps != []
    ensures HEADER <= |u| ==> Value(u[..HEADER]) == |ps[0]| + HEADER && NonEmpty(ps[0])
    ensures HEADER <= |u| && |ps[0]| + HEADER <= |u| ==>
              u[HEADER..|ps[0]| + HEADER] == ps[0] && u[|ps[0]| + HEADER..] <= Stream(ps[1..])
  {
    if ps != [] {
      assert ps[0] in ps;
      hide Value;
      SizeOfFrame(ps[0]);
      PrefixOfFrame(BigEndian(|ps[0]| + HEADER, HEADER), ps[0], Stream(ps[1..]), u);
    }
  }

  lemma SizeOfFrame(p: Payload)
    requires Fits(p)
    ensures Value(BigEndian(|p| + HEADER, HEADER)) == |p| + HEADER
  {
    Widths();
    IntegerRoundTrip(|p| + HEADER, HEADER);
  }

  lemma PrefixOfFrame(header: seq<Byte>, p: Payload, rest: seq<Byte>, u: seq<Byte>)
    requires |header| == HEADER && u <= header + p + rest
    ensures HEADER <= |u| ==> u[..HEADER] == header
    ensures |p| + HEADER <= |u| ==> u[HEADER..|p| + HEADER] == p && u[|p| + HEADER..] <= rest
  {
    var n := |p| + HEADER;
    var s := header + p + rest;
    assert s[..HEADER] == header && s[HEADER..n] == p && s[n..] == rest;
    if HEADER <= |u| { assert u[..HEADER] == s[..HEADER]; }
    if n <= |u| { assert u[HEADER..n] == s[HEADER..n] && u[n..] == s[n..][..|u| - n]; }
  }

  /** Writes a payload behind its size, or nothing at all if the payload is empty: room is left for
      the size, and it is filled in when the payload is complete. */
  method WriteFrame(out: ByteBuffer, payload: Payload)
    requires out.Valid() && Fits(payload)
    modifies out
    ensures out.Valid() && out.Written() == old(out.Written()) + Stream([payload])
  {
    ghost var before := out.Written();
    var oldPosition := out.position;
    out.Put([0, 0, 0, 0]);
    out.Put(payload);
    var newPosition := out.position;
    var size := (newPosition - oldPosition) % 0x1_0000_0000;
    assert size == |payload| + HEADER;
    ghost var tail := out.data[oldPosition + HEADER..];
    BehindHeader(out.data, before, payload);
    out.position := oldPosition;
    StreamOfOne(payload);
    assert payload != [] ==> Frame(payload) == BigEndian(size, HEADER) + payload;
    hide Stream, Frame, BigEndian;
    if size > HEADER {
      assert out.Written() == before;
      ghost var header := BigEndian(size, HEADER);
      out.Put(BigEndian(size, HEADER));
      Completed(out.data, before, header, payload);
      out.position := newPosition;
    }
  }

  lemma Completed(data: seq<Byte>, before: seq<Byte>, header: seq<Byte>, payload: Payload)
    requires |header| == HEADER && before + header <= data && |before| + HEADER + |payload| <= |data|
    requires data[|before| + HEADER..][..|payload|] == payload
    ensures data[..|before| + HEADER + |payload|] == before + (header + payload)
  {
  }

  lemma BehindHeader(data: seq<Byte>, before: seq<Byte>, payload: Payload)
    requires before + [0, 0, 0, 0] + payload <= data
    ensures data[|before| + HEADER..][..|payload|] == payload && data[..|before|] == before
  {
  }

  lemma StreamOfOne(p: Payload)
    ensures Stream([p]) == if p == [] then [] else Frame(p)
  {
    assert [p][1..] == [];
  }

  /** The stream of what has not been delivered yet begins with the rest of the input, and this rest
      holds no complete frame. */
  ghost predicate Incomplete(rest: seq<Byte>, todo: seq<Payload>) {
    && Sendable(todo) && rest <= Stream(todo)
    && (todo == [] ==> rest == []) && (todo != [] ==> |rest| < |Frame(todo[0])|)
  }

  class Receiver {
    const input: ByteBuffer
    var delivered: seq<Payload>

    ghost predicate Valid()
      reads this, input
    {
      input.Valid()
    }

    constructor ()
      ensures Valid() && fresh(input) && delivered == [] && input.Written() == []
    {
      input := new ByteBuffer();
      delivered := [];
    }

    /** Reads one frame within its own limit. */
    method ReceiveKernel(size: nat)
      requires Valid() && HEADER <= size <= |input.Unread()|
      modifies this`delivered, input`position, input`limit
      ensures Valid() && delivered == old(delivered) + [old(input.Unread())[HEADER..size]]
      ensures input.Unread() == old(input.Unread())[size..]
    {
      var oldLimit := input.limit;
      input.limit := input.position + size;
      input.position := input.position + HEADER;
      var payload := input.data[input.position..input.limit];
      assert payload == old(input.Unread())[HEADER..size];
      delivered := delivered + [payload];
      var consumed: nat :| consumed <= input.limit - input.position;
      input.position := input.position + consumed;
      // The end of the guard.
      input.position := input.limit;
      input.limit := oldLimit;
    }

    /** Delivers all complete frames. Whatever the reader of a payload consumes of it, be it because
        it stops early or because it fails, the next frame begins behind the payload. */
    method ReceiveKernels(ghost todo: seq<Payload>) returns (ghost done: seq<Payload>, ghost rest: seq<Payload>)
      requires Valid() && Sendable(todo) && input.Unread() <= Stream(todo)
      modifies this`delivered, input
      ensures Valid() && todo == done + rest && delivered == old(delivered) + done
      ensures Stream(done) + input.Written() == old(input.Unread()) && Incomplete(input.Written(), rest)
    {
      done, rest := [], todo;
      ghost var all, start := input.Unread(), delivered;
      while input.limit - input.position >= HEADER
        invariant Valid() && todo == done + rest && delivered == start + done
        invariant Stream(done) + input.Unread() == all && input.Unread() <= Stream(rest)
        decreases |rest|
      {
        ghost var u := input.Unread();
        hide Incomplete, Stream, Sendable, Value, Frame, NonEmpty;
        SendableTail(todo, done, rest);
        FirstFrame(rest, u);
        var size := Value(input.data[input.position..input.position + HEADER]);
        assert u[..HEADER] == input.data[input.position..input.position + HEADER];
        if input.limit - input.position < size { break; }
        ghost var kernel, later := rest[0], rest[1..];
        OneMore(done, kernel, u, size);
        MoveOn(todo, done, rest);
        ghost var was := delivered;
        ReceiveKernel(size);
        Appended(start, done, kernel, was, delivered);
        done, rest := done + [kernel], later;
      }
      SendableTail(todo, done, rest);
      Remainder(rest, input.Unread());
      input.Compact();
    }

    /** One round: the input is filled, flipped, read and compacted. */
    method Round(chunk: seq<Byte>, ghost todo: seq<Payload>)
      returns (ghost done: seq<Payload>, ghost rest: seq<Payload>)
      requires Valid() && Sendable(todo) && input.Written() + chunk <= Stream(todo)
      modifies this`delivered, input
      ensures Valid() && todo == done + rest && delivered == old(delivered) + done
      ensures Stream(done) + input.Written() == old(input.Written()) + chunk && Incomplete(input.Written(), rest)
    {
      input.Put(chunk);
      input.Flip();
      done, rest := ReceiveKernels(todo);
    }
  }

  lemma SendableTail(todo: seq<Payload>, done: seq<Payload>, rest: seq<Payload>)
    requires Sendable(todo) && todo == done + rest
    ensures Sendable(rest)
  {
    forall p | p in rest ensures NonEmpty(p) { assert p in todo; }
  }

  lemma Appended(start: seq<Payload>, done: seq<Payload>, p: Payload, was: seq<Payload>, now: seq<Payload>)
    requires was == start + done && now == was + [p]
    ensures now == start + (done + [p])
  {
  }

  lemma MoveOn(todo: seq<Payload>, done: seq<Payload>, rest: seq<Payload>)
    requires rest != [] && todo == done + rest
    ensures todo == (done + [rest[0]]) + rest[1..]
  {
  }

  lemma OneMore(done: seq<Payload>, p: Payload, u: seq<Byte>, size: nat)
    requires NonEmpty(p) && size == |p| + HEADER <= |u|
    requires u[HEADER..size] == p && Value(u[..HEADER]) == size
    ensures Stream(done + [p]) + u[size..] == Stream(done) + u
  {
    hide BigEndian, Value, Stream;
    var n := |p| + HEADER;
    BytesOf(u[..HEADER]);
    StreamOfSum(done, [p]);
    StreamOfOne(p);
    assert u[..n] == u[..HEADER] + u[HEADER..n];
    assert Frame(p) == u[..n];
    assert u == u[..n] + u[n..];
  }

  lemma Remainder(todo: seq<Payload>, u: seq<Byte>)
    requires Sendable(todo) && u <= Stream(todo)
    requires HEADER <= |u| ==> |u| < Value(u[..HEADER])
    ensures Incomplete(u, todo)
  {
    FirstFrame(todo, u);
  }

  function Joined(chunks: seq<seq<Byte>>): seq<Byte> {
    if chunks == [] then [] else chunks[0] + Joined(chunks[1..])
  }

  /** However the stream of the frames is cut into pieces, exactly the payloads are delivered, once
      and in their order, and nothing is left over. */
  method Transfer(ps: seq<Payload>, chunks: seq<seq<Byte>>) returns (received: seq<Payload>)
    requires Sendable(ps) && Joined(chunks) == Stream(ps)
    ensures received == ps
  {
    var r := new Receiver();
    var pieces := chunks;
    ghost var done, todo := [], ps;
    while pieces != []
      invariant r.Valid() && fresh(r) && fresh(r.input)
      invariant ps == done + todo && r.delivered == done && r.input.Written() + Joined(pieces) == Stream(todo)
      invariant r.input.Written() == [] || Incomplete(r.input.Written(), todo)
      decreases |pieces|
    {
      hide Stream, Sendable, Incomplete, Joined;
      ghost var w, later := r.input.Written(), pieces[1..];
      SendableTail(ps, done, todo);
      NextPiece(w, pieces, todo);
      ghost var d, t;
      d, t := r.Round(pieces[0], todo);
      Shift(d, t, w + pieces[0], r.input.Written(), Joined(later));
      Regroup(ps, done, d, t);
      done, todo := done + d, t;
      pieces := pieces[1..];
    }
    SendableTail(ps, done, todo);
    AllDone(r.input.Written(), todo);
    received := r.delivered;
  }

  lemma Regroup(ps: seq<Payload>, a: seq<Payload>, b: seq<Payload>, c: seq<Payload>)
    requires ps == a + (b + c)
    ensures ps == (a + b) + c
  {
  }

  lemma NextPiece(w: seq<Byte>, pieces: seq<seq<Byte>>, todo: seq<Payload>)
    requires pieces != [] && w + Joined(pieces) == Stream(todo)
    ensures (w + pieces[0]) + Joined(pieces[1..]) == Stream(todo) && w + pieces[0] <= Stream(todo)
  {
    Regrouped(w, pieces[0], Joined(pieces[1..]));
  }

  lemma Regrouped(a: seq<Byte>, b: seq<Byte>, c: seq<Byte>)
    ensures a + (b + c) == (a + b) + c && a + b <= (a + b) + c
  {
  }

  lemma Shift(done: seq<Payload>, rest: seq<Payload>, u: seq<Byte>, w: seq<Byte>, later: seq<Byte>)
    requires Stream(done) + w == u && u + later == Stream(done + rest)
    ensures w + later == Stream(rest)
  {
    StreamOfSum(done, rest);
    assert Stream(done) + (w + later) == Stream(done) + Stream(rest);
    assert (Stream(done) + (w + later))[|Stream(done)|..] == (Stream(done) + Stream(rest))[|Stream(done)|..];
  }

  lemma AllDone(rest: seq<Byte>, todo: seq<Payload>)
    requires rest == Stream(todo) && Sendable(todo) && (rest == [] || Incomplete(rest, todo))
    ensures todo == []
  {
    if todo != [] { FirstIsThere(todo); }
  }

  lemma FirstIsThere(todo: seq<Payload>)
    requires Sendable(todo) && todo != []
    ensures 0 < |Frame(todo[0])| <= |Stream(todo)|
  {
    assert todo[0] in todo;
  }
}
