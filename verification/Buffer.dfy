/** Integers as bytes, and a buffer that is filled, flipped, read and compacted. */
module Buffer {
  import opened Arithmetic

  type Byte = b: int | 0 <= b < 256

  function Power(n: nat): nat {
    if n == 0 then 1 else 256 * Power(n - 1)
  }

  /** An unsigned integer of `n` bytes, the most significant one first. What does not fit is lost. */
  function BigEndian(v: nat, n: nat): (s: seq<Byte>)
    ensures |s| == n
  {
    if n == 0 then [] else BigEndian(v / 256, n - 1) + [v % 256]
  }

  function Value(s: seq<Byte>): nat {
    if s == [] then 0 else Value(s[..|s| - 1]) * 256 + s[|s| - 1]
  }

  lemma {:induction false} IntegerRoundTrip(v: nat, n: nat)
    ensures v < Power(n) ==> Value(BigEndian(v, n)) == v
  {
    if 0 < n {
      IntegerRoundTrip(v / 256, n - 1);
      assert BigEndian(v, n)[..n - 1] == BigEndian(v / 256, n - 1);
      assert v == (v / 256) * 256 + v % 256;
    }
  }

  lemma Widths()
    ensures Power(1) == 0x100 && Power(2) == 0x1_0000 && Power(4) == 0x1_0000_0000
    ensures Power(8) == 0x1_0000_0000_0000_0000
  {
    assert Power(3) == 0x100_0000 && Power(5) == 0x100_0000_0000 && Power(6) == 0x1_0000_0000_0000;
  }

  datatype Error = RangeError | BadType

  datatype Decoded<T> = Done(value: T, rest: seq<Byte>) | Fail(error: Error)

  function TakeBytes(s: seq<Byte>, n: nat): (r: Decoded<seq<Byte>>)
    ensures r.Done? ==> |r.value| == n && s == r.value + r.rest
  {
    if |s| < n then Fail(RangeError) else Done(s[..n], s[n..])
  }

  function TakeInteger(s: seq<Byte>, n: nat): (r: Decoded<nat>)
    ensures r.Done? ==> |s| == n + |r.rest|
  {
    if |s| < n then Fail(RangeError) else Done(Value(s[..n]), s[n..])
  }

  lemma TakeWritten(v: nat, n: nat, rest: seq<Byte>)
    requires v < Power(n)
    ensures TakeInteger(BigEndian(v, n) + rest, n) == Done(v, rest)
  {
    IntegerRoundTrip(v, n);
    assert (BigEndian(v, n) + rest)[..n] == BigEndian(v, n);
  }

  lemma TakeBytesWritten(s: seq<Byte>, rest: seq<Byte>)
    ensures TakeBytes(s + rest, |s|) == Done(s, rest)
  {
  }

  /** Up to `position` the bytes are written or have been read; a reader may go on to `limit`. */
  class ByteBuffer {
    var data: seq<Byte>
    var position: nat
    var limit: nat

    ghost predicate Valid()
      reads this
    {
      position <= limit <= |data|
    }

    ghost function Written(): seq<Byte>
      requires Valid()
      reads this
    {
      data[..position]
    }

    ghost function Unread(): seq<Byte>
      requires Valid()
      reads this
    {
      data[position..limit]
    }

    constructor ()
      ensures Valid() && Written() == []
    {
      data, position, limit := [], 0, 0;
    }

    /** Writes bytes; the buffer grows when it is full. */
    method Put(s: seq<Byte>)
      requires Valid()
      modifies this
      ensures Valid() && Written() == old(Written()) + s && position == old(position) + |s| && limit == |data|
      ensures |old(data)| <= |data| && (position <= |old(data)| ==> data[position..] == old(data)[position..])
    {
      var tail := if position + |s| <= |data| then data[position + |s|..] else [];
      data := data[..position] + s + tail;
      position := position + |s|;
      limit := |data|;
    }

    method Get(n: nat) returns (ok: bool, s: seq<Byte>)
      requires Valid()
      modifies this`position
      ensures Valid() && (ok <==> n <= |old(Unread())|)
      ensures if ok then old(Unread()) == s + Unread() && |s| == n else s == [] && position == old(position)
    {
      ok := position + n <= limit;
      s := [];
      if ok {
        s := data[position..position + n];
        position := position + n;
      }
    }

    method GetInteger(n: nat) returns (r: Decoded<nat>)
      requires Valid()
      modifies this`position
      ensures Valid() && TakeInteger(old(Unread()), n) == if r.Done? then Done(r.value, Unread()) else r
      ensures r.Fail? ==> position == old(position)
    {
      var ok, s := Get(n);
      r := if ok then Done(Value(s), []) else Fail(RangeError);
      assert ok ==> old(Unread())[..n] == s;
    }

    /** Moves on until `n` bytes are left. */
    method Leave(n: nat)
      requires Valid() && n <= |Unread()|
      modifies this`position
      ensures Valid() && Unread() == old(Unread())[|old(Unread())| - n..]
    {
      position := limit - n;
    }

    /** From writing to reading. */
    method Flip()
      requires Valid()
      modifies this`position, this`limit
      ensures Valid() && Unread() == old(Written())
    {
      limit := position;
      position := 0;
    }

    /** From reading to writing: what has not been read is kept. */
    method Compact()
      requires Valid()
      modifies this
      ensures Valid() && Written() == old(Unread())
    {
      var rest := data[position..limit];
      data := rest + data[|rest|..];
      position := |rest|;
      limit := |data|;
    }
  }
}
