/** Writing expressions as text and reading them back. */
module ExpressionText {
  import opened Expression

  predicate IsSpace(c: char) {
    c == ' ' || '\t' <= c <= '\r'
  }

  predicate IsDigit(c: char) {
    '0' <= c <= '9'
  }

  predicate IsNameChar(c: char) {
    IsDigit(c) || 'a' <= c <= 'z' || 'A' <= c <= 'Z' || c == '-' || c == '%' || c == '.'
  }

  predicate IsValidName(s: string) {
    (s != "" ==> !IsDigit(s[0])) && forall c <- s :: IsNameChar(c)
  }

  // ---------------------------------------------------------------------------
  // Writing.

  function Digits(n: nat): string {
    if n < 10 then [(n + 48) as char] else Digits(n / 10) + [(n % 10 + 48) as char]
  }

  /** The string up to the first null character. */
  function CString(s: string): string {
    if s == "" || s[0] == '\0' then "" else [s[0]] + CString(s[1..])
  }

  function Escape(s: string): string {
    if s == "" then "" else (if s[0] == '"' then "\\\"" else [s[0]]) + Escape(s[1..])
  }

  function Print(e: Expr): string
    requires Whole(e)
  {
    match e
    case Symbol(r) => ResourceName(r)
    case Constant(Boolean(b)) => if b then "1" else "0"
    case Constant(U64(n)) => Digits(n)
    case Constant(Text(s)) => "\"" + Escape(CString(s)) + "\""
    case Name(s) => s
    case Unary(op, a) => "(" + (UnaryName(op) + " " + Print(a)) + ")"
    case Binary(op, a, b) => "(" + (BinaryName(op) + " " + (Print(a) + " " + Print(b))) + ")"
  }

  // ---------------------------------------------------------------------------
  // Reading.

  datatype Error = BadName | OutOfRange | LengthError

  datatype Result = Ok(e: Expr) | Throw(error: Error)

  function TrimLeft(s: string): string {
    if s != "" && IsSpace(s[0]) then TrimLeft(s[1..]) else s
  }

  function TrimRight(s: string): string {
    if s != "" && IsSpace(s[|s| - 1]) then TrimRight(s[..|s| - 1]) else s
  }

  function Trim(s: string): string {
    TrimRight(TrimLeft(s))
  }

  /** The length of the first word. */
  function Word(s: string): (n: nat)
    ensures n <= |s|
  {
    if s == "" || IsSpace(s[0]) then 0 else Word(s[1..]) + 1
  }

  /** The characters after a backslash are taken as they are. */
  function Unescape(s: string, escape: bool): string {
    if s == "" then ""
    else if escape then [s[0]] + Unescape(s[1..], false)
    else if s[0] == '\\' then Unescape(s[1..], true)
    else [s[0]] + Unescape(s[1..], false)
  }

  function Bracket(c: char): int {
    if c == '(' then 1 else if c == ')' then -1 else 0
  }

  /** Where the first space outside of brackets is, or nothing if there is none or if a bracket is
      closed that was not opened. */
  function Scan(s: string, bracket: int): (p: int)
    ensures -1 <= p < |s|
  {
    if s == "" then -1
    else if bracket == 0 && IsSpace(s[0]) then 0
    else if bracket + Bracket(s[0]) < 0 then -1
    else
      var p := Scan(s[1..], bracket + Bracket(s[0]));
      if p < 0 then -1 else p + 1
  }

  /** The length of the first run of digits. */
  function DigitRun(s: string): (n: nat)
    ensures n <= |s| && forall i | 0 <= i < n :: IsDigit(s[i])
  {
    if s == "" || !IsDigit(s[0]) then 0 else DigitRun(s[1..]) + 1
  }

  function DigitValue(c: char): (d: nat)
    requires IsDigit(c)
    ensures d < 10
  {
    c as int - 48
  }

  function NumberOf(s: string): nat
    requires forall c <- s :: IsDigit(c)
  {
    if s == "" then 0
    else
      NumberOf(s[..|s| - 1]) * 10 + DigitValue(s[|s| - 1])
  }

  const LONG_MAX := 0x7FFF_FFFF_FFFF_FFFF

  datatype Conversion = Number(n: nat) | NotANumber | TooLarge

  /** A decimal number with or without a sign; the conversion function refuses numbers that do not
      fit into a signed 64-bit integer even where something else follows them. */
  function ToNumber(s: string): Conversion {
    var minus := s != "" && s[0] == '-';
    var digits := if s != "" && (s[0] == '-' || s[0] == '+') then s[1..] else s;
    var n := DigitRun(digits);
    assert forall c <- digits[..n] :: IsDigit(c);
    var v := NumberOf(digits[..n]);
    if n == 0 then NotANumber
    else if (if minus then LONG_MAX + 1 else LONG_MAX) < v then TooLarge
    else if (minus && v != 0) || n != |digits| then NotANumber
    else Number(v)
  }

  function ReadLeaf(t: string): Result
    requires t != ""
  {
    if t == "total-threads" then Ok(Symbol(TotalThreads))
    else if t == "total-memory" then Ok(Symbol(TotalMemory))
    else if t == "hostname" then Ok(Symbol(Hostname))
    else
      match ToNumber(t)
      case TooLarge => Throw(OutOfRange)
      case Number(n) => Ok(Constant(U64(n)))
      case NotANumber => if IsValidName(t) then Ok(Name(t)) else Throw(BadName)
  }

  function BinaryOpOf(name: string): (r: seq<BinaryOp>)
    ensures |r| <= 1 && (r != [] ==> BinaryName(r[0]) == name)
    ensures r == [] ==> forall op :: BinaryName(op) != name
  {
    if name == "and" then [And]
    else if name == "or" then [Or]
    else if name == "xor" then [Xor]
    else if name == "=" then [Equal]
    else if name == "<" then [LessThan]
    else if name == "<=" then [LessOrEqual]
    else if name == ">" then [GreaterThan]
    else if name == ">=" then [GreaterOrEqual]
    else if name == "+" then [Add]
    else if name == "-" then [Subtract]
    else if name == "*" then [Multiply]
    else if name == "quotient" then [Quotient]
    else if name == "remainder" then [Remainder]
    else []
  }

  function MakeUnary(op: UnaryOp, r: Result): Result {
    if r.Ok? then Ok(Unary(op, r.e)) else r
  }

  function MakeBinary(name: string, r: Result, s: Result): Result {
    if r.Throw? then r
    else if s.Throw? then s
    else
      var op := BinaryOpOf(name);
      if op == [] then Ok(Null) else Ok(Binary(op[0], r.e, s.e))
  }

  function Read(s: string, depth: int): Result
    decreases depth, 1
  {
    var t := Trim(s);
    if depth <= 0 || t == "" then Ok(Null)
    else if t[0] == '(' && t[|t| - 1] == ')' then ReadApplication(t[1..|t| - 1], depth)
    else if t[0] == '"' && t[|t| - 1] == '"' then
      if |t| == 1 then Throw(LengthError) else Ok(Constant(Text(CString(Unescape(t[1..|t| - 1], false)))))
    else ReadLeaf(t)
  }

  function ReadApplication(s: string, depth: int): Result
    requires 0 < depth
    decreases depth, 0
  {
    var t := Trim(s);
    var name, rest := t[..Word(t)], TrimLeft(t[Word(t)..]);
    if name == "not" then MakeUnary(Not, Read(rest, depth - 1))
    else if name == "negate" then MakeUnary(Negate, Read(rest, depth - 1))
    else
      var p := Scan(rest, 0);
      if p < 0 then Ok(Null) else MakeBinary(name, Read(rest[..p], depth - 1), Read(rest[p..], depth - 1))
  }

  // ---------------------------------------------------------------------------
  // Facts about the parts of the reader.

  predicate Spaces(s: string) {
    forall c <- s :: IsSpace(c)
  }

  lemma {:induction false} TrimLeftIs(s: string) returns (i: nat)
    ensures i <= |s| && TrimLeft(s) == s[i..] && Spaces(s[..i]) && (i < |s| ==> !IsSpace(s[i]))
  {
    if s != "" && IsSpace(s[0]) {
      var j := TrimLeftIs(s[1..]);
      i := j + 1;
      assert s[..i] == [s[0]] + s[1..][..j];
    } else {
      i := 0;
    }
  }

  lemma {:induction false} TrimRightIs(s: string) returns (j: nat)
    ensures j <= |s| && TrimRight(s) == s[..j] && Spaces(s[j..]) && (0 < j ==> !IsSpace(s[j - 1]))
  {
    if s != "" && IsSpace(s[|s| - 1]) {
      var n := |s| - 1;
      j := TrimRightIs(s[..n]);
      assert s[j..] == s[..n][j..] + [s[n]];
      assert s[..n][..j] == s[..j];
    } else {
      j := |s|;
    }
  }

  /** Trimming takes spaces away at both ends, and only those. */
  lemma TrimIs(s: string) returns (i: nat, j: nat)
    ensures i <= j <= |s| && Trim(s) == s[i..j] && Spaces(s[..i]) && Spaces(s[j..])
    ensures i < j ==> !IsSpace(s[i]) && !IsSpace(s[j - 1])
  {
    i := TrimLeftIs(s);
    var k := TrimRightIs(s[i..]);
    j := i + k;
    assert s[i..][k..] == s[j..] && s[i..][..k] == s[i..j];
  }

  lemma TrimNothing(s: string)
    requires s != "" ==> !IsSpace(s[0]) && !IsSpace(s[|s| - 1])
    ensures Trim(s) == s && TrimLeft(s) == s
  {
  }

  lemma {:induction false} TrimSpaceBefore(s: string)
    ensures Trim(" " + s) == Trim(s)
  {
    assert (" " + s)[1..] == s;
  }

  lemma {:induction false} WordIs(s: string)
    ensures (forall i | 0 <= i < Word(s) :: !IsSpace(s[i])) && (Word(s) < |s| ==> IsSpace(s[Word(s)]))
  {
    if s != "" && !IsSpace(s[0]) {
      WordIs(s[1..]);
      forall i | 0 < i < Word(s) ensures !IsSpace(s[i]) { assert s[i] == s[1..][i - 1]; }
    }
  }

  lemma WordOf(w: string, rest: string)
    requires (forall c <- w :: !IsSpace(c)) && (rest != "" ==> IsSpace(rest[0]))
    ensures Word(w + rest) == |w|
  {
    WordIs(w + rest);
    var n := Word(w + rest);
    assert forall i | 0 <= i < |w| :: (w + rest)[i] == w[i];
    assert rest != "" ==> (w + rest)[|w|] == rest[0];
  }

  /** The number of characters that are not backslashes. */
  function Weight(s: string): nat {
    if s == "" then 0 else (if s[0] == '\\' then 0 else 1) + Weight(s[1..])
  }

  lemma {:induction false} WeightOfSum(s: string, t: string)
    ensures Weight(s + t) == Weight(s) + Weight(t)
  {
    if s == "" {
      assert s + t == t;
    } else {
      WeightOfSum(s[1..], t);
      assert (s + t)[1..] == s[1..] + t;
    }
  }

  lemma {:induction false} WeightIsLength(s: string)
    ensures Weight(s) <= |s|
    ensures '\\' !in s ==> Weight(s) == |s|
  {
    if s != "" {
      WeightIsLength(s[1..]);
      assert s == [s[0]] + s[1..];
    }
  }

  lemma WeightOfParts(s: string, i: nat, j: nat)
    requires i <= j <= |s|
    ensures Weight(s) == Weight(s[..i]) + Weight(s[i..j]) + Weight(s[j..])
  {
    WeightOfSum(s[..i], s[i..j]);
    WeightOfSum(s[..i] + s[i..j], s[j..]);
    assert s == s[..i] + s[i..j] + s[j..];
  }

  lemma {:induction false} WeightOfEscape(s: string)
    ensures Weight(Escape(s)) == Weight(s)
  {
    if s != "" {
      WeightOfEscape(s[1..]);
      if s[0] == '"' {
        WeightOfSum("\\\"", Escape(s[1..]));
        assert Weight("\\\"") == 1 by { assert "\\\""[1..] == "\""; assert Weight("\"") == 1; }
      } else {
        WeightOfSum([s[0]], Escape(s[1..]));
        assert [s[0]][1..] == "";
      }
    }
  }

  lemma {:induction false} WeightOfUnescape(s: string, escape: bool)
    ensures Weight(Unescape(s, escape)) == Weight(s)
  {
    if s != "" {
      WeightOfUnescape(s[1..], false);
      WeightOfUnescape(s[1..], true);
      WeightOfSum([s[0]], Unescape(s[1..], false));
      assert [s[0]][1..] == "";
    }
  }

  lemma {:induction false} CStringIs(s: string)
    ensures CString(s) <= s && Weight(CString(s)) <= Weight(s) && '\0' !in CString(s)
    ensures CString(s) == s <==> '\0' !in s
  {
    if s != "" && s[0] != '\0' {
      CStringIs(s[1..]);
      WeightOfSum([s[0]], CString(s[1..]));
      assert [s[0]][1..] == "";
    }
  }

  // ---------------------------------------------------------------------------
  // Strings.

  /** Every backslash stands before a quote. */
  predicate Escapable(s: string) {
    forall i | 0 <= i < |s| && s[i] == '\\' :: i + 1 < |s| && s[i + 1] == '"'
  }

  lemma {:induction false} UnescapeLength(s: string)
    ensures |Unescape(Escape(s), false)| <= |s|
    ensures |Unescape(Escape(s), true)| <= |s| + if s != "" && s[0] == '"' then 1 else 0
  {
    if s != "" {
      UnescapeLength(s[1..]);
      EscapeFirst(s);
    }
  }

  lemma EscapeFirst(s: string)
    requires s != ""
    ensures Escape(s)[0] == (if s[0] == '"' then '\\' else s[0])
    ensures s[0] != '"' ==> Escape(s)[1..] == Escape(s[1..])
    ensures s[0] == '"' ==>
              && Escape(s)[1..] == "\"" + Escape(s[1..])
              && Unescape(Escape(s)[1..], false) == "\"" + Unescape(Escape(s[1..]), false)
    ensures s[0] == '"' ==> Unescape(Escape(s)[1..], true) == "\"" + Unescape(Escape(s[1..]), false)
  {
    if s[0] == '"' {
      var t := "\"" + Escape(s[1..]);
      assert Escape(s)[1..] == t;
      assert t[1..] == Escape(s[1..]);
    }
  }

  /** Reading a written string gives the string back exactly if every backslash in it stands before
      a quote. */
  lemma {:induction false} StringRoundTrip(s: string)
    ensures Unescape(Escape(s), false) == s <==> Escapable(s)
  {
    if s != "" {
      var r := s[1..];
      EscapeFirst(s);
      EscapableTail(s);
      assert s == [s[0]] + r;
      if s[0] != '\\' {
        StringRoundTrip(r);
        assert Unescape(Escape(s), false) == [s[0]] + Unescape(Escape(r), false);
      } else if r != "" && r[0] == '"' {
        StringRoundTrip(r[1..]);
        BackslashQuote(s);
        EscapableTail(r);
      } else {
        UnescapeLength(r);
      }
    }
  }

  lemma BackslashQuote(s: string)
    requires 1 < |s| && s[0] == '\\' && s[1] == '"'
    ensures Unescape(Escape(s), false) == "\\\"" + Unescape(Escape(s[2..]), false) && s == "\\\"" + s[2..]
            && s[1..][1..] == s[2..]
  {
    EscapeFirst(s);
    EscapeFirst(s[1..]);
  }

  lemma EscapableTail(s: string)
    requires s != ""
    ensures Escapable(s) <==> (s[0] == '\\' ==> 1 < |s| && s[1] == '"') && Escapable(s[1..])
  {
    if Escapable(s) {
      forall i | 0 <= i < |s[1..]| && s[1..][i] == '\\' ensures i + 1 < |s[1..]| && s[1..][i + 1] == '"' {
        assert s[i + 1] == '\\';
      }
    }
    if (s[0] == '\\' ==> 1 < |s| && s[1] == '"') && Escapable(s[1..]) {
      forall i | 0 <= i < |s| && s[i] == '\\' ensures i + 1 < |s| && s[i + 1] == '"' {
        if 0 < i { assert s[1..][i - 1] == '\\'; }
      }
    }
  }

  // ---------------------------------------------------------------------------
  // Numbers.

  predicate AllDigits(s: string) {
    forall c <- s :: IsDigit(c)
  }

  lemma {:induction false} DigitsRoundTrip(n: nat)
    ensures Digits(n) != "" && AllDigits(Digits(n)) && NumberOf(Digits(n)) == n
  {
    var d := Digits(n);
    if n < 10 {
      assert d[..0] == "" && NumberOf("") == 0;
    } else {
      DigitsRoundTrip(n / 10);
      assert d[..|d| - 1] == Digits(n / 10);
    }
  }

  /** No number is written with more digits than it was read from. */
  lemma {:induction false} DigitsAreShort(s: string)
    requires s != "" && AllDigits(s)
    ensures |Digits(NumberOf(s))| <= |s|
  {
    var n := |s| - 1;
    assert s[n] in s;
    if n == 0 {
      assert s[..0] == "" && NumberOf("") == 0;
    } else {
      DigitsAreShort(s[..n]);
      var v, d := NumberOf(s[..n]), DigitValue(s[n]);
      assert NumberOf(s) == v * 10 + d && 0 <= d < 10;
      assert (v * 10 + d) / 10 == v;
    }
  }

  lemma {:induction false} DigitRunIs(s: string)
    ensures AllDigits(s) ==> DigitRun(s) == |s|
  {
    if s != "" {
      assert s[0] in s;
      DigitRunIs(s[1..]);
    }
  }

  lemma NumberReadsBack(n: nat)
    ensures ToNumber(Digits(n)) == if n <= LONG_MAX then Number(n) else TooLarge
  {
    var d := Digits(n);
    DigitsRoundTrip(n);
    DigitRunIs(d);
    assert d[0] in d;
    assert d[..|d|] == d;
  }

  // ---------------------------------------------------------------------------
  // Brackets.

  /** The text has no space outside of brackets and closes no bracket too many. */
  predicate Passes(s: string, bracket: int) {
    s == "" || (!(bracket == 0 && IsSpace(s[0])) && 0 <= bracket + Bracket(s[0])
                && Passes(s[1..], bracket + Bracket(s[0])))
  }

  function Net(s: string): int {
    if s == "" then 0 else Bracket(s[0]) + Net(s[1..])
  }

  /** The scan for the first argument stops exactly behind this text. */
  predicate Scannable(s: string) {
    Passes(s, 0) && Net(s) == 0
  }

  lemma {:induction false} ScanStops(s: string, rest: string, bracket: int)
    requires Passes(s, bracket) && bracket + Net(s) == 0 && rest != "" && IsSpace(rest[0])
    ensures Scan(s + rest, bracket) == |s|
  {
    if s == "" {
      assert s + rest == rest;
    } else {
      assert (s + rest)[1..] == s[1..] + rest;
      ScanStops(s[1..], rest, bracket + Bracket(s[0]));
    }
  }

  lemma {:induction false} ScanIs(s: string, bracket: int)
    ensures var p := Scan(s, bracket);
            0 <= p ==> Passes(s[..p], bracket) && bracket + Net(s[..p]) == 0 && IsSpace(s[p])
  {
    var p := Scan(s, bracket);
    if 0 < p {
      ScanIs(s[1..], bracket + Bracket(s[0]));
      assert s[..p][1..] == s[1..][..p - 1];
    }
  }

  lemma {:induction false} PassesSum(s: string, t: string, bracket: int)
    ensures Passes(s + t, bracket) <==> Passes(s, bracket) && Passes(t, bracket + Net(s))
    ensures Net(s + t) == Net(s) + Net(t)
  {
    if s == "" {
      assert s + t == t;
    } else {
      assert (s + t)[1..] == s[1..] + t;
      PassesSum(s[1..], t, bracket + Bracket(s[0]));
    }
  }

  // ---------------------------------------------------------------------------
  // The round trip.

  predicate IsPlainName(s: string) {
    s != "" && IsValidName(s) && (forall r :: s != ResourceName(r)) && ToNumber(s) == NotANumber
  }

  /** Numbers are less than 2 to the power of 63 and there are no truth values; in strings every
      backslash stands before a quote; names are valid and are neither numbers nor resources; and the
      scan finds the end of every first argument. */
  predicate Plain(e: Expr)
    requires Whole(e)
  {
    match e
    case Symbol(_) => true
    case Constant(Boolean(_)) => false
    case Constant(U64(n)) => n <= LONG_MAX
    case Constant(Text(s)) => '\0' !in s && Escapable(s)
    case Name(s) => IsPlainName(s)
    case Unary(_, a) => Plain(a)
    case Binary(_, a, b) => Plain(a) && Plain(b) && Scannable(Print(a))
  }

  lemma BinaryNames(op: BinaryOp)
    ensures BinaryOpOf(BinaryName(op)) == [op] && BinaryName(op) != "not" && BinaryName(op) != "negate"
    ensures BinaryName(op) != "" && forall c <- BinaryName(op) :: !IsSpace(c)
  {
  }

  lemma UnaryNames(op: UnaryOp)
    ensures UnaryName(op) == "not" <==> op == Not
    ensures UnaryName(op) == "negate" <==> op == Negate
    ensures UnaryName(op) != "" && forall c <- UnaryName(op) :: !IsSpace(c)
  {
  }

  lemma {:induction false} SpacesWeigh(s: string)
    requires Spaces(s)
    ensures Weight(s) == |s|
  {
    if s != "" {
      assert s[0] in s;
      SpacesWeigh(s[1..]);
    }
  }

  lemma NotAmongSpaces(s: string, i: nat, j: nat, k: nat)
    requires i <= j <= |s| && k < |s| && Spaces(s[..i]) && Spaces(s[j..]) && !IsSpace(s[k])
    ensures i <= k < j
  {
    assert forall h | 0 <= h < i :: s[..i][h] == s[h];
    assert forall h | j <= h < |s| :: s[j..][h - j] == s[h];
  }

  lemma Behind(w: string, u: string, j: nat)
    requires |w| < j <= |w| + 1 + |u|
    ensures (w + " " + u)[..j][|w|..] == " " + u[..j - |w| - 1]
    ensures (w + " " + u)[j..] == u[j - |w| - 1..]
  {
    var s := w + " " + u;
    assert forall k | 0 <= k < j - |w| - 1 :: s[|w| + 1 + k] == u[k];
    assert s[|w|] == ' ';
  }

  /** What is left of the arguments behind the name of an operation. */
  lemma ArgumentText(w: string, u: string) returns (x: nat, y: nat)
    requires w != "" && forall c <- w :: !IsSpace(c)
    ensures var s := Trim(w + " " + u);
            && s[..Word(s)] == w && x <= y <= |u| && TrimLeft(s[Word(s)..]) == u[x..y]
            && Spaces(u[..x]) && Spaces(u[y..])
  {
    hide Trim, TrimLeft, TrimRight, Word;
    var inner := w + " " + u;
    var i, j := TrimIs(inner);
    var n := |w|;
    assert inner[0] == w[0] && inner[n - 1] == w[n - 1] && w[0] in w && w[n - 1] in w;
    NotAmongSpaces(inner, i, j, 0);
    NotAmongSpaces(inner, i, j, n - 1);
    var s := inner[..j];
    assert Trim(inner) == s;
    var v := s[n..];
    assert s == w + v;
    assert v != "" ==> v[0] == ' ';
    WordOf(w, v);
    var k := TrimLeftIs(v);
    if v == "" {
      x, y := |u|, |u|;
      assert inner[j..] == " " + u;
      assert Spaces(u[..x]) by {
        forall c | c in u[..x] ensures IsSpace(c) { assert c in inner[j..]; }
      }
    } else {
      assert 1 <= k;
      x, y := k - 1, j - n - 1;
      Behind(w, u, j);
      assert v[k..] == u[x..y];
      assert Spaces(u[..x]) by {
        forall c | c in u[..x] ensures IsSpace(c) { assert v[..k] == " " + u[..x]; assert c in v[..k]; }
      }
    }
  }

  lemma SameText(u: string, x: nat, y: nat)
    requires x <= y <= |u| && Spaces(u[..x]) && Spaces(u[y..])
    ensures Weight(u[x..y]) + x + (|u| - y) == Weight(u)
    ensures Weight(u) <= Weight(u[x..y]) ==> u[x..y] == u
  {
    WeightOfParts(u, x, y);
    SpacesWeigh(u[..x]);
    SpacesWeigh(u[y..]);
  }

  /** The text is not empty and has no space at its ends. */
  predicate Trimmed(t: string) {
    t != "" && !IsSpace(t[0]) && !IsSpace(t[|t| - 1])
  }

  lemma DigitsAreTrimmed(n: nat)
    ensures Trimmed(Digits(n)) && IsDigit(Digits(n)[0])
  {
    hide Digits, NumberOf;
    DigitsRoundTrip(n);
    var t := Digits(n);
    assert t[0] in t && t[|t| - 1] in t;
  }

  lemma PlainIsTrimmed(e: Expr)
    requires Whole(e) && Plain(e)
    ensures Trimmed(Print(e))
  {
    hide Digits, Escape, CString, ToNumber;
    match e
    case Constant(U64(n)) => DigitsAreTrimmed(n);
    case Constant(Text(s)) =>
    case Name(s) => assert s[0] in s && s[|s| - 1] in s;
    case _ =>
  }

  lemma NumberIsRead(n: nat, depth: int)
    requires 1 <= depth
    ensures Read(Digits(n), depth) == if n <= LONG_MAX then Ok(Constant(U64(n))) else Throw(OutOfRange)
  {
    hide Digits, ToNumber, Trim;
    DigitsAreTrimmed(n);
    TrimNothing(Digits(n));
    NumberReadsBack(n);
  }

  lemma TextIsRead(s: string, depth: int)
    requires 1 <= depth
    ensures Read("\"" + s + "\"", depth) == Ok(Constant(Text(CString(Unescape(s, false)))))
  {
    hide Unescape, CString, Trim;
    var t := "\"" + s + "\"";
    TrimNothing(t);
    assert t[1..|t| - 1] == s;
  }

  /** A word that is neither in brackets nor in quotes. */
  lemma WordIsRead(t: string, depth: int)
    requires 1 <= depth && Trimmed(t) && t[0] != '(' && t[0] != '"'
    ensures Read(t, depth) == ReadLeaf(t)
  {
    hide Trim, ReadLeaf;
    TrimNothing(t);
  }

  lemma LeafReadsBack(e: Expr, depth: int)
    requires Whole(e) && Plain(e) && !e.Unary? && !e.Binary? && 1 <= depth
    ensures Read(Print(e), depth) == Ok(e)
  {
    hide Read, Digits, Escape, Unescape, CString, ToNumber;
    PlainIsTrimmed(e);
    match e
    case Constant(U64(n)) => NumberIsRead(n, depth);
    case Constant(Text(s)) =>
      CStringIs(s);
      StringRoundTrip(s);
      TextIsRead(Escape(s), depth);
    case Name(s) =>
      assert s[0] in s;
      WordIsRead(s, depth);
      assert ResourceName(TotalThreads) == "total-threads" && ResourceName(TotalMemory) == "total-memory";
      assert ResourceName(Hostname) == "hostname";
    case Symbol(r) => WordIsRead(Print(e), depth);
  }

  /** The arguments are found where they were written. */
  lemma ArgumentsOf(w: string, u: string)
    requires w != "" && (forall c <- w :: !IsSpace(c)) && u != "" && !IsSpace(u[0]) && !IsSpace(u[|u| - 1])
    ensures var s := Trim(w + " " + u); s[..Word(s)] == w && TrimLeft(s[Word(s)..]) == u
  {
    var x, y := ArgumentText(w, u);
    NotAmongSpaces(u, x, y, 0);
    NotAmongSpaces(u, x, y, |u| - 1);
  }

  lemma ReadBrackets(inner: string, depth: int)
    requires 0 < depth
    ensures Read("(" + inner + ")", depth) == ReadApplication(inner, depth)
  {
    var t := "(" + inner + ")";
    TrimNothing(t);
    assert t[1..|t| - 1] == inner;
  }

  lemma UnaryReadsBack(op: UnaryOp, pa: string, depth: int)
    requires Trimmed(pa) && 1 <= depth
    ensures Read("(" + (UnaryName(op) + " " + pa) + ")", depth) == MakeUnary(op, Read(pa, depth - 1))
  {
    hide Read, Trim, TrimLeft, Word;
    UnaryNames(op);
    ReadBrackets(UnaryName(op) + " " + pa, depth);
    ArgumentsOf(UnaryName(op), pa);
  }

  lemma ReadSpaceBefore(s: string, depth: int)
    ensures Read(" " + s, depth) == Read(s, depth)
  {
    TrimSpaceBefore(s);
  }

  lemma BinaryReadsBack(op: BinaryOp, pa: string, pb: string, depth: int)
    requires Trimmed(pa) && Trimmed(pb) && Scannable(pa) && 1 <= depth
    ensures Read("(" + (BinaryName(op) + " " + (pa + " " + pb)) + ")", depth)
            == MakeBinary(BinaryName(op), Read(pa, depth - 1), Read(pb, depth - 1))
  {
    hide Read, Trim, TrimLeft, Word, Scan, Passes, Net, MakeBinary, BinaryName;
    var u := pa + " " + pb;
    BinaryNames(op);
    ReadBrackets(BinaryName(op) + " " + u, depth);
    ArgumentsOf(BinaryName(op), u);
    ScanStops(pa, " " + pb, 0);
    assert u == pa + (" " + pb) && u[..|pa|] == pa && u[|pa|..] == " " + pb;
    ReadSpaceBefore(pb, depth - 1);
  }

  lemma {:induction false} ReadsBack(e: Expr, depth: int)
    requires Whole(e) && Plain(e) && Height(e) <= depth
    ensures Read(Print(e), depth) == Ok(e)
    decreases e
  {
    hide Read, Trimmed, Scannable, BinaryOpOf, BinaryName, UnaryName;
    match e
    case Unary(op, a) =>
      ReadsBack(a, depth - 1);
      PlainIsTrimmed(a);
      UnaryReadsBack(op, Print(a), depth);
    case Binary(op, a, b) =>
      ReadsBack(a, depth - 1);
      ReadsBack(b, depth - 1);
      PlainIsTrimmed(a);
      PlainIsTrimmed(b);
      BinaryNames(op);
      BinaryReadsBack(op, Print(a), Print(b), depth);
    case _ => LeafReadsBack(e, depth);
  }

  // ---------------------------------------------------------------------------
  // Nothing else comes back.

  lemma TrimWeight(s: string)
    ensures Weight(Trim(s)) <= Weight(s)
    ensures s != "" && IsSpace(s[0]) ==> Weight(Trim(s)) < Weight(s)
  {
    var i, j := TrimIs(s);
    SameText(s, i, j);
  }

  lemma TrimLeftWeight(s: string)
    ensures Weight(TrimLeft(s)) <= Weight(s)
    ensures s != "" && IsSpace(s[0]) ==> Weight(TrimLeft(s)) < Weight(s)
  {
    var i := TrimLeftIs(s);
    SameText(s, i, |s|);
    assert s[i..|s|] == s[i..];
  }

  lemma WeightInside(c: char, s: string, d: char)
    requires c != '\\' && d != '\\'
    ensures Weight([c] + s + [d]) == Weight(s) + 2
  {
    WeightOfSum([c], s);
    WeightOfSum([c] + s, [d]);
    assert [c][1..] == "" && [d][1..] == "";
  }

  lemma WeightOfApplication(name: string, u: string)
    ensures Weight("(" + (name + " " + u) + ")") == Weight(name) + Weight(u) + 3
  {
    WeightInside('(', name + " " + u, ')');
    WeightOfSum(name + " ", u);
    WeightOfSum(name, " ");
    assert Weight(" ") == 1 by { assert " "[1..] == ""; }
  }

  lemma WeightOfPair(s: string, t: string)
    ensures Weight(s + " " + t) == Weight(s) + Weight(t) + 1
  {
    WeightOfSum(s + " ", t);
    WeightOfSum(s, " ");
    assert Weight(" ") == 1 by { assert " "[1..] == ""; }
  }

  /** The weight of an application is that of the name and of the rest, and of the space between. */
  lemma ApplicationWeight(s: string)
    ensures var t := Trim(s); var rest := TrimLeft(t[Word(t)..]);
            rest != "" ==> Weight(t[..Word(t)]) + 1 + Weight(rest) <= Weight(s)
  {
    var t := Trim(s);
    var n := Word(t);
    TrimWeight(s);
    WordIs(t);
    assert t == t[..n] + t[n..];
    WeightOfSum(t[..n], t[n..]);
    TrimLeftWeight(t[n..]);
  }

  lemma NumberText(t: string, n: nat) returns (digits: string)
    requires ToNumber(t) == Number(n)
    ensures AllDigits(digits) && digits != "" && NumberOf(digits) == n
    ensures t == digits || (t != "" && t == [t[0]] + digits)
  {
    var signed := t != "" && (t[0] == '-' || t[0] == '+');
    digits := if signed then t[1..] else t;
    assert digits[..DigitRun(digits)] == digits;
    hide NumberOf;
    assert signed ==> t == [t[0]] + digits;
  }

  lemma NumberWeight(t: string, n: nat)
    requires ToNumber(t) == Number(n)
    ensures Weight(Digits(n)) <= Weight(t)
  {
    var digits := NumberText(t, n);
    hide ToNumber, Digits, NumberOf, Weight;
    DigitsAreShort(digits);
    WeightIsLength(Digits(n));
    WeightIsLength(digits);
    assert '\\' !in digits;
    if t != digits { WeightOfSum([t[0]], digits); }
  }

  lemma LeafWeight(t: string, e: Expr)
    requires t != "" && ReadLeaf(t) == Ok(e) && Whole(e)
    ensures Weight(Print(e)) <= Weight(t)
  {
    hide ToNumber, Weight, Digits;
    if e.Constant? { NumberWeight(t, e.value.n); }
  }

  lemma TextWeight(s: string)
    ensures Weight(Print(Constant(Text(CString(Unescape(s, false)))))) <= Weight("\"" + s + "\"")
  {
    var u := Unescape(s, false);
    CStringIs(u);
    CStringIs(CString(u));
    WeightOfUnescape(s, false);
    WeightOfEscape(CString(u));
    WeightInside('"', Escape(CString(u)), '"');
    WeightInside('"', s, '"');
  }

  /** What is read is never heavier to write than the text that it was read from. */
  lemma {:induction false} ReadWeight(s: string, depth: int, e: Expr)
    requires Read(s, depth) == Ok(e) && Whole(e)
    ensures Weight(Print(e)) <= Weight(Trim(s)) && Trim(s) != ""
    decreases depth
  {
    var t := Trim(s);
    if t[0] == '(' && t[|t| - 1] == ')' {
      var inner := t[1..|t| - 1];
      assert t == "(" + inner + ")";
      WeightInside('(', inner, ')');
      ReadApplicationWeight(inner, depth, e);
    } else if t[0] == '"' && t[|t| - 1] == '"' {
      var inner := t[1..|t| - 1];
      assert t == "\"" + inner + "\"";
      TextWeight(inner);
    } else {
      LeafWeight(t, e);
    }
  }

  lemma {:induction false} ReadApplicationWeight(s: string, depth: int, e: Expr)
    requires 0 < depth && ReadApplication(s, depth) == Ok(e) && Whole(e)
    ensures Weight(Print(e)) <= Weight(s) + 2
    decreases depth, 0
  {
    var t := Trim(s);
    var name, rest := t[..Word(t)], TrimLeft(t[Word(t)..]);
    ApplicationWeight(s);
    var d := depth - 1;
    if name == "not" || name == "negate" {
      assert e == Unary(if name == "not" then Not else Negate, e.arg) && Read(rest, d) == Ok(e.arg);
      hide Word, Trim, TrimLeft, Weight, Read;
      ReadWeight(rest, d, e.arg);
      TrimWeight(rest);
      WeightOfApplication(name, Print(e.arg));
    } else {
      var p := Scan(rest, 0);
      assert 0 <= p && e.Binary? && BinaryName(e.op2) == name;
      assert Read(rest[..p], d) == Ok(e.a) && Read(rest[p..], d) == Ok(e.b);
      hide Word, Trim, TrimLeft, Weight, Read, Scan, BinaryOpOf, BinaryName;
      ReadWeight(rest[..p], d, e.a);
      ReadWeight(rest[p..], d, e.b);
      PairWeight(rest, p, Print(e.a), Print(e.b));
      WeightOfApplication(name, Print(e.a) + " " + Print(e.b));
    }
  }

  lemma PairWeight(rest: string, p: nat, pa: string, pb: string)
    requires p == Scan(rest, 0) && Weight(pa) <= Weight(Trim(rest[..p])) && Weight(pb) <= Weight(Trim(rest[p..]))
    ensures Weight(pa + " " + pb) <= Weight(rest)
  {
    hide Trim, Weight, Scan;
    TrimWeight(rest[..p]);
    ScanIs(rest, 0);
    TrimWeight(rest[p..]);
    assert rest == rest[..p] + rest[p..];
    WeightOfSum(rest[..p], rest[p..]);
    WeightOfPair(pa, pb);
  }

  lemma LeafWasRead(s: string, depth: int)
    requires Read(s, depth) == Ok(Name(s))
    ensures Trim(s) == s && ReadLeaf(s) == Ok(Name(s))
  {
    hide ToNumber, Trim;
    if Trim(s) != "" { LeafKinds(Trim(s)); }
  }

  lemma LeafKinds(t: string)
    requires t != ""
    ensures ReadLeaf(t).Ok? && ReadLeaf(t).e.Name? ==> ReadLeaf(t).e.name == t
  {
  }

  lemma NotPlainName(s: string, depth: int)
    requires Read(s, depth) == Ok(Name(s))
    ensures IsPlainName(s)
  {
    LeafWasRead(s, depth);
    hide Read, Trim, ToNumber;
    forall r ensures s != ResourceName(r) {}
  }

  lemma LeafIsPlain(e: Expr, depth: int)
    requires Whole(e) && !e.Unary? && !e.Binary? && Read(Print(e), depth) == Ok(e)
    ensures Plain(e) && 1 <= depth
  {
    match e
    case Constant(U64(n)) => NumberIsRead(n, depth);
    case Constant(Boolean(b)) =>
    case Constant(Text(s)) =>
      hide Escape, Unescape, CString, Read;
      var t := CString(s);
      CStringIs(s);
      TextIsRead(Escape(t), depth);
      CStringIs(Unescape(Escape(t), false));
      UnescapeLength(t);
      StringRoundTrip(t);
    case Name(s) => NotPlainName(s, depth);
    case Symbol(_) =>
  }

  lemma UnaryArgument(op: UnaryOp, u: string, depth: int, d: int, r: Expr) returns (x: nat, y: nat)
    requires Read("(" + (UnaryName(op) + " " + u) + ")", depth) == Ok(r) && r.Unary? && d == depth - 1
    ensures x <= y <= |u| && Spaces(u[..x]) && Spaces(u[y..])
    ensures 1 <= depth && r.op1 == op && Read(u[x..y], d) == Ok(r.arg)
  {
    var w := UnaryName(op);
    UnaryNames(op);
    hide Spaces, Read, ReadApplication, UnaryName, Scan, Word, Trim, TrimLeft;
    DepthIsNeeded("(" + (w + " " + u) + ")", depth);
    ReadBrackets(w + " " + u, depth);
    x, y := ApplicationText(w, u, depth, d);
  }

  lemma DepthIsNeeded(s: string, depth: int)
    requires Read(s, depth) != Ok(Null)
    ensures 1 <= depth
  {
  }

  /** What is read of an application whose name is known. */
  lemma ApplicationText(w: string, u: string, depth: int, d: int) returns (x: nat, y: nat)
    requires w != "" && (forall c <- w :: !IsSpace(c)) && 1 <= depth && d == depth - 1
    ensures x <= y <= |u| && Spaces(u[..x]) && Spaces(u[y..])
    ensures var rest, p := u[x..y], Scan(u[x..y], 0);
            ReadApplication(w + " " + u, depth)
            == if w == "not" then MakeUnary(Not, Read(rest, d))
               else if w == "negate" then MakeUnary(Negate, Read(rest, d))
               else if p < 0 then Ok(Null) else MakeBinary(w, Read(rest[..p], d), Read(rest[p..], d))
  {
    hide Spaces, Read, Scan, Word, Trim, TrimLeft, MakeUnary, MakeBinary, IsSpace;
    x, y := ArgumentText(w, u);
  }

  lemma UnaryIsRead(op: UnaryOp, a: Expr, depth: int)
    requires Whole(a) && Read(Print(Unary(op, a)), depth) == Ok(Unary(op, a))
    ensures 1 <= depth && Read(Print(a), depth - 1) == Ok(a)
  {
    var u, d := Print(a), depth - 1;
    var x, y := UnaryArgument(op, u, depth, d, Unary(op, a));
    hide Trim, Weight, Print, Read, UnaryName;
    ReadWeight(u[x..y], d, a);
    TrimWeight(u[x..y]);
    SameText(u, x, y);
  }

  lemma BinaryArguments(op: BinaryOp, u: string, depth: int, d: int, r: Expr) returns (x: nat, y: nat, p: nat)
    requires Read("(" + (BinaryName(op) + " " + u) + ")", depth) == Ok(r) && r.Binary? && d == depth - 1
    ensures x <= y <= |u| && Spaces(u[..x]) && Spaces(u[y..]) && p == Scan(u[x..y], 0)
    ensures 1 <= depth && r.op2 == op
    ensures Read(u[x..y][..p], d) == Ok(r.a) && Read(u[x..y][p..], d) == Ok(r.b)
  {
    var w := BinaryName(op);
    BinaryNames(op);
    hide Spaces, Read, ReadApplication, BinaryName, BinaryOpOf, Scan, Word, Trim, TrimLeft;
    DepthIsNeeded("(" + (w + " " + u) + ")", depth);
    ReadBrackets(w + " " + u, depth);
    x, y := ApplicationText(w, u, depth, d);
    p := Scan(u[x..y], 0);
  }

  lemma BinaryIsRead(op: BinaryOp, a: Expr, b: Expr, depth: int)
    requires Whole(a) && Whole(b) && Read(Print(Binary(op, a, b)), depth) == Ok(Binary(op, a, b))
    ensures 1 <= depth && Read(Print(a), depth - 1) == Ok(a) && Read(Print(b), depth - 1) == Ok(b)
    ensures Scannable(Print(a))
  {
    var pa, pb := Print(a), Print(b);
    var u, d := pa + " " + pb, depth - 1;
    var x, y, p := BinaryArguments(op, u, depth, d, Binary(op, a, b));
    hide Trim, Weight, Print, Read, BinaryName, Scan, Spaces;
    ArgumentsWeigh(a, b, u[x..y], p, d);
    WeightOfPair(pa, pb);
    SameText(u, x, y);
    SplitAt(pa, pb, p);
    ScanIs(u, 0);
    ReadSpaceBefore(pb, d);
  }

  lemma ArgumentsWeigh(a: Expr, b: Expr, rest: string, p: nat, depth: int)
    requires Whole(a) && Whole(b) && p == Scan(rest, 0)
    requires Read(rest[..p], depth) == Ok(a) && Read(rest[p..], depth) == Ok(b)
    ensures Weight(Print(a)) <= Weight(rest[..p]) && Weight(Print(b)) + 1 <= Weight(rest[p..])
    ensures Weight(rest) == Weight(rest[..p]) + Weight(rest[p..]) && IsSpace(rest[p])
  {
    ReadWeight(rest[..p], depth, a);
    ReadWeight(rest[p..], depth, b);
    ScanIs(rest, 0);
    TrimWeight(rest[..p]);
    TrimWeight(rest[p..]);
    WeightOfSum(rest[..p], rest[p..]);
    assert rest == rest[..p] + rest[p..];
  }

  lemma LongerPrefix(s: string, i: nat, j: nat)
    requires i < j <= |s| && s[i] != '\\'
    ensures Weight(s[..i]) < Weight(s[..j])
  {
    WeightOfSum(s[..i], s[i..j]);
    assert s[..j] == s[..i] + s[i..j];
  }

  /** A space that splits the weight as the right one does is the right one. */
  lemma SplitAt(s: string, t: string, p: nat)
    requires var u := s + " " + t; p < |u| && IsSpace(u[p]) && Weight(u[..p]) == Weight(s)
    ensures var u := s + " " + t; p == |s| && u[..p] == s && u[p..] == " " + t
  {
    var u := s + " " + t;
    assert u[..|s|] == s && u[|s|..] == " " + t;
    if p < |s| {
      LongerPrefix(u, p, |s|);
    } else if |s| < p {
      LongerPrefix(u, |s|, p);
    }
  }

  lemma {:induction false} OnlyPlainComesBack(e: Expr, depth: int)
    requires Whole(e) && Read(Print(e), depth) == Ok(e)
    ensures Plain(e) && Height(e) <= depth
    decreases e
  {
    hide Read, Scannable;
    match e
    case Unary(op, a) =>
      UnaryIsRead(op, a, depth);
      OnlyPlainComesBack(a, depth - 1);
    case Binary(op, a, b) =>
      BinaryIsRead(op, a, b, depth);
      OnlyPlainComesBack(a, depth - 1);
      OnlyPlainComesBack(b, depth - 1);
    case _ => LeafIsPlain(e, depth);
  }

  /** An expression is read back from its text exactly if it is plain and the depth suffices. */
  lemma RoundTrip(e: Expr, depth: int)
    requires Whole(e)
    ensures Read(Print(e), depth) == Ok(e) <==> Plain(e) && Height(e) <= depth
  {
    hide Read, Print, Plain, Height;
    if Read(Print(e), depth) == Ok(e) { OnlyPlainComesBack(e, depth); }
    if Plain(e) && Height(e) <= depth { ReadsBack(e, depth); }
  }

  // ---------------------------------------------------------------------------
  // A simple condition, and what does not come back.

  predicate IsLetter(c: char) {
    'a' <= c <= 'z' || 'A' <= c <= 'Z'
  }

  /** Strings without spaces, brackets, backslashes and null characters, and names that start with a
      letter. */
  predicate Simple(e: Expr) {
    match e
    case Null => false
    case Symbol(_) => true
    case Constant(U64(n)) => n <= LONG_MAX
    case Constant(Text(s)) => forall c <- s :: !IsSpace(c) && c != '(' && c != ')' && c != '\\' && c != '\0'
    case Constant(_) => false
    case Name(s) => s != "" && IsLetter(s[0]) && IsValidName(s) && forall r :: s != ResourceName(r)
    case Unary(_, a) => Simple(a)
    case Binary(_, a, b) => Simple(a) && Simple(b)
  }

  predicate Flat(s: string) {
    forall c <- s :: !IsSpace(c) && c != '(' && c != ')'
  }

  lemma {:induction false} FlatPasses(s: string, bracket: nat)
    requires Flat(s)
    ensures Passes(s, bracket) && Net(s) == 0
  {
    if s != "" {
      assert s[0] in s;
      FlatPasses(s[1..], bracket);
    }
  }

  lemma {:induction false} EscapeIsFlat(s: string)
    requires Flat(s)
    ensures Flat(Escape(s))
  {
    if s != "" {
      assert s[0] in s;
      EscapeIsFlat(s[1..]);
    }
  }

  lemma ApplicationPasses(name: string, u: string, bracket: nat, inside: nat)
    requires Flat(name) && inside == bracket + 1 && Passes(u, inside) && Net(u) == 0
    ensures var t := "(" + (name + " " + u) + ")"; Passes(t, bracket) && Net(t) == 0
  {
    FlatPasses(name, bracket + 1);
    PassesSum(name, " ", bracket + 1);
    PassesSum(name + " ", u, bracket + 1);
    PassesSum("(", name + " " + u, bracket);
    PassesSum("(" + (name + " " + u), ")", bracket);
    assert "("[1..] == "" && ")"[1..] == "" && " "[1..] == "";
  }

  lemma LeafIsFlat(e: Expr)
    requires Whole(e) && Simple(e) && !e.Unary? && !e.Binary?
    ensures Flat(Print(e)) && Plain(e)
  {
    match e
    case Symbol(r) => SymbolIsFlat(r);
    case Constant(U64(n)) =>
      hide Digits;
      DigitsRoundTrip(n);
    case Constant(Text(s)) => TextIsFlat(s);
    case Name(s) =>
      assert DigitRun(s) == 0;
  }

  lemma SymbolIsFlat(r: Resource)
    ensures Flat(ResourceName(r))
  {
  }

  lemma TextIsFlat(s: string)
    requires Simple(Constant(Text(s)))
    ensures Flat(Print(Constant(Text(s)))) && '\0' !in s && Escapable(s)
  {
    assert '\0' !in s;
    assert Escapable(s) by {
      forall i | 0 <= i < |s| ensures s[i] != '\\' { assert s[i] in s; }
    }
    hide Escape, CString;
    CStringIs(s);
    EscapeIsFlat(s);
    assert Print(Constant(Text(s))) == "\"" + Escape(s) + "\"";
  }

  lemma {:induction false} SimplePasses(e: Expr, bracket: nat)
    requires Whole(e) && Simple(e)
    ensures Passes(Print(e), bracket) && Net(Print(e)) == 0
    decreases e
  {
    hide Flat, Passes, Net;
    var inside := bracket + 1;
    NamesAreFlat();
    if e.Unary? {
      SimplePasses(e.arg, inside);
      ApplicationPasses(UnaryName(e.op1), Print(e.arg), bracket, inside);
    } else if e.Binary? {
      SimplePasses(e.a, inside);
      SimplePasses(e.b, inside);
      PairPasses(Print(e.a), Print(e.b), inside);
      ApplicationPasses(BinaryName(e.op2), Print(e.a) + " " + Print(e.b), bracket, inside);
    } else {
      LeafIsFlat(e);
      FlatPasses(Print(e), bracket);
    }
  }

  lemma NamesAreFlat()
    ensures forall op :: Flat(UnaryName(op))
    ensures forall op :: Flat(BinaryName(op))
  {
  }

  lemma PairPasses(s: string, t: string, bracket: nat)
    requires 1 <= bracket && Passes(s, bracket) && Net(s) == 0 && Passes(t, bracket) && Net(t) == 0
    ensures Passes(s + " " + t, bracket) && Net(s + " " + t) == 0
  {
    PassesSum(s, " ", bracket);
    PassesSum(s + " ", t, bracket);
    assert " "[1..] == "";
  }

  lemma {:induction false} SimpleIsPlain(e: Expr)
    requires Whole(e) && Simple(e)
    ensures Plain(e)
  {
    if e.Unary? {
      SimpleIsPlain(e.arg);
    } else if e.Binary? {
      SimpleIsPlain(e.a);
      SimpleIsPlain(e.b);
      SimplePasses(e.a, 0);
    } else {
      LeafIsFlat(e);
    }
  }

  /** Simple expressions are read back. */
  lemma SimpleRoundTrip(e: Expr, depth: int)
    requires Whole(e) && Simple(e) && Height(e) <= depth
    ensures Read(Print(e), depth) == Ok(e)
  {
    hide Read, Print, Plain, Simple, Height;
    SimpleIsPlain(e);
    RoundTrip(e, depth);
  }

  /** Expressions that do not come back: a truth value becomes a number, a number of 64 bits is
      refused, a name may be taken for a number, a backslash is lost, and a space ends the first
      argument. */
  lemma NotReadBack(depth: int)
    requires 2 <= depth
    ensures Read(Print(Constant(Boolean(true))), depth) == Ok(Constant(U64(1)))
    ensures Read(Print(Constant(U64(LONG_MAX + 1))), depth) == Throw(OutOfRange)
    ensures Read(Print(Name("-0")), depth) == Ok(Constant(U64(0)))
    ensures Read(Print(Constant(Text("\\"))), depth) == Ok(Constant(Text("")))
    ensures var e := Binary(Equal, Constant(Text("a b")), Symbol(Hostname)); Whole(e) && Read(Print(e), depth) != Ok(e)
    ensures var e := Binary(Equal, Symbol(Hostname), Constant(Text("a b"))); Whole(e) && Read(Print(e), depth) == Ok(e)
  {
    hide Read;
    NumberIsRead(1, depth);
    assert Digits(1) == "1";
    hide Digits;
    NumberIsRead(LONG_MAX + 1, depth);
    MinusNought(depth);
    BackslashIsLost(depth);
    SpaceInText(depth);
  }

  lemma MinusNought(depth: int)
    requires 1 <= depth
    ensures Read("-0", depth) == Ok(Constant(U64(0)))
  {
    var s := "-0";
    assert s[1..] == "0";
    assert DigitRun("0") == 1 by { assert "0"[1..] == ""; }
    assert "0"[..1] == "0" && NumberOf("0") == 0 by { assert "0"[..0] == ""; }
    assert ToNumber(s) == Number(0);
    hide ToNumber;
    WordIsRead(s, depth);
  }

  lemma BackslashIsLost(depth: int)
    requires 1 <= depth
    ensures Read(Print(Constant(Text("\\"))), depth) == Ok(Constant(Text("")))
  {
    var s := "\\";
    assert s[1..] == "";
    assert CString(s) == s && Escape(s) == s;
    assert Unescape(s, false) == "";
    TextIsRead(s, depth);
  }

  lemma SpaceInText(depth: int)
    requires 2 <= depth
    ensures var e := Binary(Equal, Constant(Text("a b")), Symbol(Hostname)); Whole(e) && Read(Print(e), depth) != Ok(e)
    ensures var e := Binary(Equal, Symbol(Hostname), Constant(Text("a b"))); Whole(e) && Read(Print(e), depth) == Ok(e)
  {
    var t, h := Constant(Text("a b")), Symbol(Hostname);
    var e, f := Binary(Equal, t, h), Binary(Equal, h, t);
    hide Print, Passes, Net, Read, Scannable;
    PrintedSpace();
    SymbolIsScannable(Hostname);
    assert !Plain(e) && Plain(f);
    hide Plain;
    RoundTrip(e, depth);
    RoundTrip(f, depth);
  }

  lemma SymbolIsScannable(r: Resource)
    ensures Scannable(Print(Symbol(r)))
  {
    SymbolIsFlat(r);
    hide Flat, Passes, Net, ResourceName;
    FlatPasses(ResourceName(r), 0);
  }

  lemma PrintedSpace()
    ensures !Scannable(Print(Constant(Text("a b"))))
  {
    var s := "\"a b\"";
    assert "a b"[1..] == " b" && " b"[1..] == "b" && "b"[1..] == "";
    assert CString("a b") == "a b" && Escape("a b") == "a b";
    assert Print(Constant(Text("a b"))) == s;
    assert s[1..] == "a b\"" && "a b\""[1..] == " b\"";
  }
}
