/** Expressions as bytes. */
module ExpressionCodec {
  import opened Expression
  import opened Buffer

  const NULL_SIZE := 0xFFFF_FFFF

  predicate IsBytes(s: string) {
    forall i | 0 <= i < |s| :: s[i] < '\U{0100}'
  }

  function CharBytes(s: string): (r: seq<Byte>)
    requires IsBytes(s)
    ensures |r| == |s|
  {
    seq(|s|, i requires 0 <= i < |s| => s[i] as int)
  }

  function Chars(s: seq<Byte>): (r: string)
    ensures |r| == |s| && IsBytes(r)
  {
    seq(|s|, i requires 0 <= i < |s| => s[i] as char)
  }

  lemma CharsRoundTrip(s: string)
    requires IsBytes(s)
    ensures Chars(CharBytes(s)) == s
  {
  }

  /** The length of the string up to the first null character. */
  function CLength(s: string): (n: nat)
    ensures n <= |s| && (n < |s| ==> s[n] == '\0') && '\0' !in s[..n]
    ensures n == |s| <==> '\0' !in s
  {
    if s == "" || s[0] == '\0' then 0
    else
      var n := CLength(s[1..]);
      assert s == [s[0]] + s[1..] && s[..n + 1] == [s[0]] + s[1..][..n];
      n + 1
  }

  /** What the types of the program guarantee: nothing is missing, integers have 64 bits, characters
      have 8. */
  predicate WellTyped(e: Expr) {
    match e
    case Null => false
    case Constant(U64(n)) => n < 0x1_0000_0000_0000_0000
    case Constant(Text(s)) => IsBytes(s)
    case Name(s) => IsBytes(s) && |s| < 0x1_0000_0000_0000_0000
    case Unary(_, a) => WellTyped(a)
    case Binary(_, a, b) => WellTyped(a) && WellTyped(b)
    case _ => true
  }

  function ResourceCode(r: Resource): nat {
    match r
    case TotalThreads => 0
    case TotalMemory => 1
    case Hostname => 2
  }

  function UnaryTag(op: UnaryOp): Byte {
    match op
    case Not => 4
    case Negate => 18
  }

  function BinaryTag(op: BinaryOp): Byte {
    match op
    case And => 5
    case Or => 6
    case Xor => 7
    case LessThan => 8
    case LessOrEqual => 9
    case Equal => 10
    case GreaterThan => 11
    case GreaterOrEqual => 12
    case Add => 13
    case Subtract => 14
    case Multiply => 15
    case Quotient => 16
    case Remainder => 17
  }

  function BinaryOpOf(tag: Byte): (op: BinaryOp)
    requires 5 <= tag <= 17
    ensures BinaryTag(op) == tag
  {
    if tag == 5 then And
    else if tag == 6 then Or
    else if tag == 7 then Xor
    else if tag == 8 then LessThan
    else if tag == 9 then LessOrEqual
    else if tag == 10 then Equal
    else if tag == 11 then GreaterThan
    else if tag == 12 then GreaterOrEqual
    else if tag == 13 then Add
    else if tag == 14 then Subtract
    else if tag == 15 then Multiply
    else if tag == 16 then Quotient
    else Remainder
  }

  /** The size of a string is cut to 32 bits, and its largest value stands for a null pointer. */
  function EncodeText(s: string): seq<Byte>
    requires IsBytes(s)
  {
    var n := CLength(s) % 0x1_0000_0000;
    BigEndian(n, 4) + CharBytes(s[..n])
  }

  function EncodeAny(v: Any): seq<Byte>
    requires WellTyped(Constant(v))
  {
    match v
    case Boolean(b) => [0, if b then 1 else 0]
    case U64(n) => [4] + BigEndian(n, 8)
    case Text(s) => [5] + EncodeText(s)
    case NullText => [5] + BigEndian(NULL_SIZE, 4)
  }

  function Encode(e: Expr): seq<Byte>
    requires WellTyped(e)
  {
    match e
    case Symbol(r) => [1] + BigEndian(ResourceCode(r), 4)
    case Constant(v) => [2] + EncodeAny(v)
    case Name(s) => [3] + (BigEndian(|s|, 8) + CharBytes(s))
    case Unary(op, a) => [UnaryTag(op)] + Encode(a)
    case Binary(op, a, b) => [BinaryTag(op)] + (Encode(a) + Encode(b))
  }

  function DecodeText(s: seq<Byte>): (r: Decoded<Any>)
    ensures r.Done? ==> |r.rest| < |s|
  {
    var n := TakeInteger(s, 4);
    if n.Fail? then Fail(n.error)
    else if n.value == NULL_SIZE then Done(NullText, n.rest)
    else
      var t := TakeBytes(n.rest, n.value);
      if t.Fail? then Fail(t.error)
      else
        var text := Chars(t.value);
        Done(Text(text[..CLength(text)]), t.rest)
  }

  function DecodeAny(s: seq<Byte>): (r: Decoded<Any>)
    ensures r.Done? ==> |r.rest| < |s|
  {
    var tag := TakeInteger(s, 1);
    if tag.Fail? then Fail(tag.error)
    else if tag.value == 0 then
      var b := TakeInteger(tag.rest, 1);
      if b.Fail? then Fail(b.error) else Done(Boolean(b.value != 0), b.rest)
    else if tag.value == 4 then
      var n := TakeInteger(tag.rest, 8);
      if n.Fail? then Fail(n.error) else Done(U64(n.value), n.rest)
    else if tag.value == 5 then DecodeText(tag.rest)
    else Fail(BadType)
  }

  function DecodeSymbol(s: seq<Byte>): (r: Decoded<Expr>)
    ensures r.Done? ==> |r.rest| < |s|
  {
    var n := TakeInteger(s, 4);
    if n.Fail? then Fail(n.error)
    else if n.value == 0 then Done(Symbol(TotalThreads), n.rest)
    else if n.value == 1 then Done(Symbol(TotalMemory), n.rest)
    else if n.value == 2 then Done(Symbol(Hostname), n.rest)
    else Fail(BadType)
  }

  function DecodeName(s: seq<Byte>): (r: Decoded<Expr>)
    ensures r.Done? ==> |r.rest| < |s|
  {
    var n := TakeInteger(s, 8);
    if n.Fail? then Fail(n.error)
    else
      var t := TakeBytes(n.rest, n.value);
      if t.Fail? then Fail(t.error) else Done(Name(Chars(t.value)), t.rest)
  }

  /** There is no expression type for the tag of `Negate`. */
  function Decode(s: seq<Byte>): (r: Decoded<Expr>)
    ensures r.Done? ==> |r.rest| < |s|
    decreases |s|
  {
    if s == [] then Fail(RangeError)
    else
      var tag, t := s[0], s[1..];
      if tag == 1 then DecodeSymbol(t)
      else if tag == 2 then
        var v := DecodeAny(t);
        if v.Fail? then Fail(v.error) else Done(Constant(v.value), v.rest)
      else if tag == 3 then DecodeName(t)
      else if tag == 4 then
        var a := Decode(t);
        if a.Fail? then a else Done(Unary(Not, a.value), a.rest)
      else if 5 <= tag <= 17 then
        var a := Decode(t);
        if a.Fail? then a
        else
          var b := Decode(a.rest);
          if b.Fail? then b else Done(Binary(BinaryOpOf(tag), a.value, b.value), b.rest)
      else Fail(BadType)
  }

  /** There is no negation, strings have no null character, and they are shorter than the size that
      stands for a null pointer. */
  predicate Encodable(e: Expr) {
    match e
    case Null => false
    case Constant(Text(s)) => '\0' !in s && |s| < NULL_SIZE
    case Unary(op, a) => op == Not && Encodable(a)
    case Binary(_, a, b) => Encodable(a) && Encodable(b)
    case _ => true
  }

  lemma TextDecodes(s: string, rest: seq<Byte>)
    requires IsBytes(s)
    ensures var r := DecodeText(EncodeText(s) + rest);
            if '\0' !in s && |s| < NULL_SIZE then r == Done(Text(s), rest) else r.Done? ==> r.value != Text(s)
  {
    var n := CLength(s) % 0x1_0000_0000;
    Widths();
    var body := CharBytes(s[..n]);
    assert EncodeText(s) + rest == BigEndian(n, 4) + (body + rest);
    TakeWritten(n, 4, body + rest);
    if n != NULL_SIZE {
      TakeBytesWritten(body, rest);
      CharsRoundTrip(s[..n]);
      if n == |s| { assert s[..n] == s; }
      assert s[..n][..CLength(s[..n])] == s ==> n == |s| && '\0' !in s;
    }
  }

  lemma NullTextDecodes(rest: seq<Byte>)
    ensures DecodeText(BigEndian(NULL_SIZE, 4) + rest) == Done(NullText, rest)
  {
    Widths();
    TakeWritten(NULL_SIZE, 4, rest);
  }

  lemma AnyDecodes(v: Any, rest: seq<Byte>)
    requires WellTyped(Constant(v))
    ensures var r := DecodeAny(EncodeAny(v) + rest);
            if Encodable(Constant(v)) then r == Done(v, rest) else r.Done? ==> r.value != v
  {
    match v
    case Boolean(b) => TruthDecodes(b, rest);
    case U64(n) => U64Decodes(n, rest);
    case Text(s) =>
      hide EncodeText, DecodeText;
      TextTagDecodes(EncodeText(s), rest);
      TextDecodes(s, rest);
    case NullText =>
      hide DecodeText;
      TextTagDecodes(BigEndian(NULL_SIZE, 4), rest);
      NullTextDecodes(rest);
  }

  lemma TruthDecodes(b: bool, rest: seq<Byte>)
    ensures DecodeAny(EncodeAny(Boolean(b)) + rest) == Done(Boolean(b), rest)
  {
    var tag: Byte := if b then 1 else 0;
    hide DecodeText, TakeInteger;
    TagDecodes(0, [tag] + rest);
    TagDecodes(tag, rest);
    assert [0, tag] + rest == [0] + ([tag] + rest);
  }

  lemma U64Decodes(n: nat, rest: seq<Byte>)
    requires WellTyped(Constant(U64(n)))
    ensures DecodeAny(EncodeAny(U64(n)) + rest) == Done(U64(n), rest)
  {
    Widths();
    hide BigEndian, Power, DecodeText, TakeInteger;
    TagDecodes(4, BigEndian(n, 8) + rest);
    TakeWritten(n, 8, rest);
    assert [4] + BigEndian(n, 8) + rest == [4] + (BigEndian(n, 8) + rest);
  }

  lemma TextTagDecodes(s: seq<Byte>, rest: seq<Byte>)
    ensures DecodeAny([5] + s + rest) == DecodeText(s + rest)
  {
    hide DecodeText, TakeInteger;
    TagDecodes(5, s + rest);
    assert [5] + s + rest == [5] + (s + rest);
  }

  lemma TagDecodes(b: Byte, rest: seq<Byte>)
    ensures TakeInteger([b] + rest, 1) == Done(b as nat, rest)
  {
    assert ([b] + rest)[..1] == [b];
    assert [b][..0] == [] && Value([]) == 0;
  }

  lemma SymbolDecodes(r: Resource, rest: seq<Byte>)
    ensures Decode(Encode(Symbol(r)) + rest) == Done(Symbol(r), rest)
  {
    Widths();
    hide BigEndian, Power, TakeInteger;
    var b := BigEndian(ResourceCode(r), 4);
    TakeWritten(ResourceCode(r), 4, rest);
    assert ([1] + b + rest)[1..] == b + rest;
  }

  lemma NameDecodes(s: string, rest: seq<Byte>)
    requires WellTyped(Name(s))
    ensures Decode(Encode(Name(s)) + rest) == Done(Name(s), rest)
  {
    Widths();
    hide BigEndian, Power, TakeInteger, TakeBytes;
    var b := BigEndian(|s|, 8);
    TakeWritten(|s|, 8, CharBytes(s) + rest);
    TakeBytesWritten(CharBytes(s), rest);
    CharsRoundTrip(s);
    assert (Encode(Name(s)) + rest)[1..] == b + (CharBytes(s) + rest);
  }

  lemma ConstantDecodes(v: Any, rest: seq<Byte>)
    requires WellTyped(Constant(v))
    ensures var r := DecodeAny(EncodeAny(v) + rest);
            Decode(Encode(Constant(v)) + rest) == if r.Fail? then Fail(r.error) else Done(Constant(r.value), r.rest)
  {
    assert (Encode(Constant(v)) + rest)[1..] == EncodeAny(v) + rest;
    hide DecodeAny, EncodeAny;
  }

  lemma UnaryDecodes(op: UnaryOp, a: Expr, rest: seq<Byte>)
    requires WellTyped(a)
    ensures var r := Decode(Encode(a) + rest);
            Decode(Encode(Unary(op, a)) + rest)
            == if op == Negate then Fail(BadType) else if r.Fail? then r else Done(Unary(Not, r.value), r.rest)
  {
    var t := Encode(a) + rest;
    assert Encode(Unary(op, a)) + rest == [UnaryTag(op)] + t;
    hide Encode, DecodeAny, DecodeName, DecodeSymbol;
    assert ([UnaryTag(op)] + t)[1..] == t;
  }

  lemma DecodePair(tag: Byte, t: seq<Byte>)
    requires 5 <= tag <= 17
    ensures var r := Decode(t);
            Decode([tag] + t)
            == if r.Fail? then r
               else
                 var q := Decode(r.rest);
                 if q.Fail? then q else Done(Binary(BinaryOpOf(tag), r.value, q.value), q.rest)
  {
    assert ([tag] + t)[1..] == t;
    hide BinaryOpOf, DecodeAny, DecodeName, DecodeSymbol;
  }

  lemma BinaryEncoded(op: BinaryOp, a: Expr, b: Expr, rest: seq<Byte>)
    requires WellTyped(a) && WellTyped(b)
    ensures Encode(Binary(op, a, b)) + rest == [BinaryTag(op)] + (Encode(a) + (Encode(b) + rest))
  {
    var s, t, tag := Encode(a), Encode(b), BinaryTag(op);
    hide BinaryTag;
    assert [tag] + (s + t) + rest == [tag] + (s + (t + rest));
  }

  lemma BinaryDecodes(op: BinaryOp, a: Expr, b: Expr, rest: seq<Byte>)
    requires WellTyped(a) && WellTyped(b)
    ensures var r := Decode(Encode(a) + (Encode(b) + rest));
            Decode(Encode(Binary(op, a, b)) + rest)
            == if r.Fail? then r
               else
                 var q := Decode(r.rest);
                 if q.Fail? then q else Done(Binary(op, r.value, q.value), q.rest)
  {
    BinaryTags(op);
    var t := Encode(a) + (Encode(b) + rest);
    BinaryEncoded(op, a, b, rest);
    hide BinaryTag, BinaryOpOf, Encode, Decode, WellTyped;
    DecodePair(BinaryTag(op), t);
  }

  /** Reading what was written gives the expression, and leaves what follows it, exactly if the
      expression is encodable. */
  lemma {:induction false} BinaryRoundTrip(e: Expr, rest: seq<Byte>)
    requires WellTyped(e)
    ensures Encodable(e) ==> Decode(Encode(e) + rest) == Done(e, rest)
    ensures !Encodable(e) ==> Decode(Encode(e) + rest).Fail? || Decode(Encode(e) + rest).value != e
    decreases e
  {
    hide Decode, Encode, DecodeAny, EncodeAny;
    match e
    case Symbol(r) => SymbolDecodes(r, rest);
    case Name(n) => NameDecodes(n, rest);
    case Constant(v) =>
      AnyDecodes(v, rest);
      ConstantDecodes(v, rest);
    case Unary(op, a) =>
      BinaryRoundTrip(a, rest);
      UnaryDecodes(op, a, rest);
    case Binary(op, a, b) =>
      BinaryRoundTrip(a, Encode(b) + rest);
      BinaryRoundTrip(b, rest);
      BinaryDecodes(op, a, b, rest);
  }

  lemma BinaryTags(op: BinaryOp)
    ensures 5 <= BinaryTag(op) <= 17 && BinaryOpOf(BinaryTag(op)) == op
  {
  }

  lemma EncodeParts(e: Expr)
    requires WellTyped(e)
    ensures e.Unary? ==> WellTyped(e.arg) && Encode(e) == [UnaryTag(e.op1)] + Encode(e.arg)
    ensures e.Binary? ==>
              WellTyped(e.a) && WellTyped(e.b) && Encode(e) == [BinaryTag(e.op2)] + (Encode(e.a) + Encode(e.b))
  {
  }

  lemma Grouped(w: seq<Byte>, a: seq<Byte>, b: seq<Byte>, c: seq<Byte>)
    ensures w + a + b + c == w + (a + (b + c)) && w + a + b == w + (a + b)
  {
  }

  /** Writes the expression behind what is in the buffer already. */
  method Write(e: Expr, out: ByteBuffer)
    requires WellTyped(e) && out.Valid()
    modifies out
    ensures out.Valid() && out.Written() == old(out.Written()) + Encode(e)
  {
    EncodeParts(e);
    hide BinaryTag, UnaryTag, Encode;
    if e.Unary? {
      out.Put([UnaryTag(e.op1)]);
      Write(e.arg, out);
      Grouped(old(out.Written()), [UnaryTag(e.op1)], Encode(e.arg), []);
    } else if e.Binary? {
      out.Put([BinaryTag(e.op2)]);
      Write(e.a, out);
      Write(e.b, out);
      Grouped(old(out.Written()), [BinaryTag(e.op2)], Encode(e.a), Encode(e.b));
    } else {
      out.Put(Encode(e));
    }
  }

  /** Reads one expression and leaves the position behind it. */
  method Read(in_: ByteBuffer) returns (r: Decoded<Expr>)
    requires in_.Valid()
    modifies in_`position
    ensures in_.Valid()
    ensures r.Done? ==> r.rest == in_.Unread() && |r.rest| < |old(in_.Unread())|
    ensures Decode(old(in_.Unread())) == r
    decreases |in_.Unread()|
  {
    ghost var s := in_.Unread();
    var tag := in_.GetInteger(1);
    if tag.Fail? { return Fail(tag.error); }
    FirstByte(s);
    if tag.value == 4 {
      var a := Read(in_);
      r := if a.Fail? then a else Done(Unary(Not, a.value), a.rest);
    } else if 5 <= tag.value <= 17 {
      var a := Read(in_);
      if a.Fail? { return a; }
      var b := Read(in_);
      r := if b.Fail? then b else Done(Binary(BinaryOpOf(tag.value), a.value, b.value), b.rest);
    } else {
      r := ReadLeaf(tag.value, in_);
    }
  }

  predicate Suffix(t: seq<Byte>, s: seq<Byte>) {
    |t| <= |s| && t == s[|s| - |t|..]
  }

  lemma TakenSuffix(s: seq<Byte>, n: nat)
    ensures TakeInteger(s, n).Done? ==> Suffix(TakeInteger(s, n).rest, s)
    ensures TakeBytes(s, n).Done? ==> Suffix(TakeBytes(s, n).rest, s)
  {
    hide Buffer.Value;
  }

  lemma SuffixOn(t: seq<Byte>, s: seq<Byte>, r: seq<Byte>)
    requires Suffix(t, s) && Suffix(s, r)
    ensures Suffix(t, r)
  {
  }

  lemma TextSuffix(s: seq<Byte>)
    ensures DecodeText(s).Done? ==> Suffix(DecodeText(s).rest, s)
  {
    hide TakeInteger, TakeBytes, Suffix;
    var n := TakeInteger(s, 4);
    TakenSuffix(s, 4);
    if n.Done? && TakeBytes(n.rest, n.value).Done? {
      TakenSuffix(n.rest, n.value);
      SuffixOn(TakeBytes(n.rest, n.value).rest, n.rest, s);
    }
  }

  lemma AnySuffix(s: seq<Byte>)
    ensures DecodeAny(s).Done? ==> Suffix(DecodeAny(s).rest, s)
  {
    hide TakeInteger, DecodeText, Suffix;
    var tag := TakeInteger(s, 1);
    if DecodeAny(s).Done? {
      TakenSuffix(s, 1);
      TakenSuffix(tag.rest, 1);
      TakenSuffix(tag.rest, 8);
      TextSuffix(tag.rest);
      SuffixOn(DecodeAny(s).rest, tag.rest, s);
    }
  }

  lemma NameSuffix(s: seq<Byte>)
    ensures DecodeName(s).Done? ==> Suffix(DecodeName(s).rest, s)
  {
    hide TakeInteger, TakeBytes, Suffix;
    var n := TakeInteger(s, 8);
    TakenSuffix(s, 8);
    if n.Done? && TakeBytes(n.rest, n.value).Done? {
      TakenSuffix(n.rest, n.value);
      SuffixOn(TakeBytes(n.rest, n.value).rest, n.rest, s);
    }
  }

  lemma LeafSuffix(s: seq<Byte>)
    ensures var r := DecodeSymbol(s); r.Done? ==> Suffix(r.rest, s)
    ensures var r := DecodeName(s); r.Done? ==> Suffix(r.rest, s)
    ensures var r := DecodeAny(s); r.Done? ==> Suffix(r.rest, s)
  {
    hide TakeInteger, Suffix, DecodeName, DecodeAny;
    TakenSuffix(s, 4);
    NameSuffix(s);
    AnySuffix(s);
  }

  lemma LeafDecodes(tag: Byte, s: seq<Byte>)
    requires !(4 <= tag <= 17)
    ensures Decode([tag] + s)
            == (if tag == 1 then DecodeSymbol(s)
                else if tag == 2 then
                  (var c := DecodeAny(s); if c.Fail? then Fail(c.error) else Done(Constant(c.value), c.rest))
                else if tag == 3 then DecodeName(s)
                else Fail(BadType))
  {
    assert ([tag] + s)[1..] == s;
  }

  method ReadLeaf(tag: nat, in_: ByteBuffer) returns (r: Decoded<Expr>)
    requires in_.Valid() && tag < 256 && !(4 <= tag <= 17)
    modifies in_`position
    ensures in_.Valid() && r == Decode([tag] + old(in_.Unread())) && (r.Done? ==> r.rest == in_.Unread())
  {
    var rest := in_.data[in_.position..in_.limit];
    LeafDecodes(tag, rest);
    LeafSuffix(rest);
    hide DecodeSymbol, DecodeAny, DecodeName, Decode;
    if tag == 1 {
      r := DecodeSymbol(rest);
    } else if tag == 2 {
      var c := DecodeAny(rest);
      r := if c.Fail? then Fail(c.error) else Done(Constant(c.value), c.rest);
    } else if tag == 3 {
      r := DecodeName(rest);
    } else {
      r := Fail(BadType);
    }
    if r.Done? { in_.Leave(|r.rest|); }
  }

  lemma FirstByte(s: seq<Byte>)
    requires s != []
    ensures TakeInteger(s, 1) == Done(s[0], s[1..]) && s == [s[0]] + s[1..]
  {
    TagDecodes(s[0], s[1..]);
    assert s == [s[0]] + s[1..];
  }
}
