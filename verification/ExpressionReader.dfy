/** The reader as it runs: positions that move over one text. */
module ExpressionReader {
  import opened Expression
  import opened ExpressionText

  method TrimText(s: string, first: nat, last: nat) returns (f: nat, l: nat)
    requires first <= last <= |s|
    ensures first <= f <= l <= last && s[f..l] == Trim(s[first..last])
  {
    f, l := first, last;
    while f != l && IsSpace(s[f])
      invariant first <= f <= l && TrimLeft(s[f..l]) == TrimLeft(s[first..last])
      decreases l - f
    {
      assert s[f..l][1..] == s[f + 1..l];
      f := f + 1;
    }
    ghost var left := s[f..l];
    while f != l && IsSpace(s[l - 1])
      invariant f <= l <= last && TrimRight(s[f..l]) == TrimRight(left)
      decreases l - f
    {
      assert s[f..l][..|s[f..l]| - 1] == s[f..l - 1];
      l := l - 1;
    }
  }

  method WriteString(s: string) returns (out: string)
    ensures out == "\"" + Escape(CString(s)) + "\""
  {
    out := "\"";
    var i := 0;
    while i < |s| && s[i] != '\0'
      invariant i <= |s| && out + Escape(CString(s[i..])) == "\"" + Escape(CString(s))
      decreases |s| - i
    {
      ghost var rest, before := CString(s[i..]), out;
      assert s[i..][1..] == s[i + 1..];
      assert rest == [s[i]] + CString(s[i + 1..]) && rest[1..] == CString(s[i + 1..]);
      if s[i] == '"' {
        out := out + "\\\"";
        assert Escape(rest) == "\\\"" + Escape(CString(s[i + 1..]));
      } else {
        out := out + [s[i]];
        assert Escape(rest) == [s[i]] + Escape(CString(s[i + 1..]));
      }
      assert out + Escape(CString(s[i + 1..])) == before + Escape(rest);
      i := i + 1;
    }
    assert CString(s[i..]) == "";
    out := out + "\"";
  }

  method ReadString(s: string) returns (buf: string)
    ensures buf == Unescape(s, false)
  {
    buf := "";
    var i, escape := 0, false;
    while i != |s|
      invariant 0 <= i <= |s| && buf + Unescape(s[i..], escape) == Unescape(s, false)
      decreases |s| - i
    {
      assert s[i..][1..] == s[i + 1..];
      ghost var before := buf;
      if escape {
        buf := buf + [s[i]];
        escape := false;
        assert buf + Unescape(s[i + 1..], false) == before + Unescape(s[i..], true);
      } else if s[i] == '\\' {
        escape := true;
      } else {
        buf := buf + [s[i]];
        assert buf + Unescape(s[i + 1..], false) == before + Unescape(s[i..], false);
      }
      i := i + 1;
    }
    assert s[i..] == "";
  }

  /** Skips the characters of the first word. */
  method SkipWord(s: string, first: nat, last: nat) returns (p: nat)
    requires first <= last <= |s|
    ensures p == first + Word(s[first..last]) <= last
  {
    p := first;
    while p != last && !IsSpace(s[p])
      invariant first <= p <= last && p + Word(s[p..last]) == first + Word(s[first..last])
      decreases last - p
    {
      assert s[p..last][1..] == s[p + 1..last];
      p := p + 1;
    }
  }

  method SkipSpaces(s: string, first: nat, last: nat) returns (p: nat)
    requires first <= last <= |s|
    ensures first <= p <= last && s[p..last] == TrimLeft(s[first..last])
  {
    p := first;
    while p != last && IsSpace(s[p])
      invariant first <= p <= last && TrimLeft(s[p..last]) == TrimLeft(s[first..last])
      decreases last - p
    {
      assert s[p..last][1..] == s[p + 1..last];
      p := p + 1;
    }
  }

  /** Looks for the end of the first argument. */
  method FindArgument(s: string, first: nat, last: nat) returns (found: bool, p: nat)
    requires first <= last <= |s|
    ensures found ==> first <= p < last && Scan(s[first..last], 0) == p - first
    ensures !found ==> Scan(s[first..last], 0) == -1
  {
    var bracket := 0;
    p := first;
    while p != last && (bracket != 0 || !IsSpace(s[p]))
      invariant first <= p <= last && 0 <= bracket
      invariant var q := Scan(s[p..last], bracket);
                Scan(s[first..last], 0) == if q < 0 then -1 else q + (p - first)
      decreases last - p
    {
      assert s[p..last][1..] == s[p + 1..last];
      if s[p] == '(' {
        bracket := bracket + 1;
      } else if s[p] == ')' {
        bracket := bracket - 1;
      }
      if bracket < 0 { return false, p; }
      p := p + 1;
    }
    found := p != last;
  }

  lemma Inside(s: string, f: nat, l: nat, g: nat, h: nat)
    requires f < l <= |s| && g == f + 1 && h == l - 1
    ensures var t := s[f..l]; t != "" && t[0] == s[f] && t[|t| - 1] == s[h] && (g <= h ==> t[1..|t| - 1] == s[g..h])
    ensures |s[f..l]| == 1 <==> h < g
  {
    if g <= h {
      var t, u := s[f..l][1..l - f - 1], s[g..h];
      assert forall k | 0 <= k < |u| :: t[k] == u[k];
    }
  }

  lemma ReadTrimmed(s: string, t: string, inner: string, depth: int)
    requires t == Trim(s) && t != "" && 0 < depth && (1 < |t| ==> inner == t[1..|t| - 1])
    ensures Read(s, depth)
            == if t[0] == '(' && t[|t| - 1] == ')' then ReadApplication(inner, depth)
               else if t[0] == '"' && t[|t| - 1] == '"' then
                 if |t| == 1 then Throw(LengthError) else Ok(Constant(Text(CString(Unescape(inner, false)))))
               else ReadLeaf(t)
  {
    hide Trim, ReadApplication, ReadLeaf, Unescape, CString;
  }

  lemma ReadNothing(s: string, depth: int)
    requires depth <= 0 || Trim(s) == ""
    ensures Read(s, depth) == Ok(Null)
  {
  }

  method ReadText(s: string, first: nat, last: nat, depth: int) returns (r: Result)
    requires first <= last <= |s|
    ensures r == Read(s[first..last], depth)
    decreases depth, 1
  {
    ghost var text := s[first..last];
    hide Trim, TrimLeft, TrimRight, Read, ReadApplication, ReadLeaf, Unescape, CString;
    if depth <= 0 {
      ReadNothing(text, depth);
      return Ok(Null);
    }
    var f, l := TrimText(s, first, last);
    if f == l {
      ReadNothing(text, depth);
      return Ok(Null);
    }
    var g, h := f + 1, l - 1;
    Inside(s, f, l, g, h);
    ghost var t, inner := s[f..l], if g <= h then s[g..h] else "";
    ReadTrimmed(text, t, inner, depth);
    if s[f] == '(' && s[h] == ')' {
      r := ReadExpression(s, g, h, depth);
    } else if s[f] == '"' && s[h] == '"' {
      if h < g { return Throw(LengthError); }
      var content := ReadString(s[g..h]);
      r := Ok(Constant(Text(CString(content))));
    } else {
      r := ReadLeaf(s[f..l]);
    }
  }

  /** Where the name of an operation ends and where its arguments begin, without the spaces around. */
  method FindName(s: string, first: nat, last: nat) returns (f: nat, e: nat, a: nat, l: nat)
    requires first <= last <= |s|
    ensures first <= f <= e <= a <= l <= last
    ensures var t := Trim(s[first..last]); t[..Word(t)] == s[f..e] && TrimLeft(t[Word(t)..]) == s[a..l]
  {
    f, l := TrimText(s, first, last);
    e := SkipWord(s, f, l);
    a := SkipSpaces(s, e, l);
    ghost var t := s[f..l];
    hide Trim, Word, TrimLeft;
    assert t[..e - f] == s[f..e] && t[e - f..] == s[e..l];
  }

  lemma Halves(s: string, a: nat, p: nat, l: nat)
    requires a <= p <= l <= |s|
    ensures s[a..l][..p - a] == s[a..p] && s[a..l][p - a..] == s[p..l]
  {
  }

  method ReadExpression(s: string, first: nat, last: nat, depth: int) returns (r: Result)
    requires first <= last <= |s| && 0 < depth
    ensures r == ReadApplication(s[first..last], depth)
    decreases depth, 0
  {
    var f, e, a, l := FindName(s, first, last);
    var name, d := s[f..e], depth - 1;
    ghost var rest := s[a..l];
    ApplicationOf(s[first..last], name, rest, depth, d);
    hide Trim, Word, TrimLeft, Scan, Read, ReadApplication, MakeBinary, MakeUnary;
    if name == "not" {
      var arg := ReadText(s, a, l, d);
      r := MakeUnary(Not, arg);
    } else if name == "negate" {
      var arg := ReadText(s, a, l, d);
      r := MakeUnary(Negate, arg);
    } else {
      r := ReadPair(s, a, l, name, d);
    }
  }

  lemma ApplicationOf(s: string, name: string, rest: string, depth: int, d: int)
    requires 0 < depth && d == depth - 1
    requires var t := Trim(s); t[..Word(t)] == name && TrimLeft(t[Word(t)..]) == rest
    ensures ReadApplication(s, depth)
            == if name == "not" then MakeUnary(Not, Read(rest, d))
               else if name == "negate" then MakeUnary(Negate, Read(rest, d))
               else var p := Scan(rest, 0);
                    if p < 0 then Ok(Null) else MakeBinary(name, Read(rest[..p], d), Read(rest[p..], d))
  {
    hide Trim, Word, TrimLeft, Scan, Read;
  }

  method ReadPair(s: string, a: nat, l: nat, name: string, depth: int) returns (r: Result)
    requires a <= l <= |s| && 0 <= depth
    ensures var rest := s[a..l];
            var p := Scan(rest, 0);
            r == if p < 0 then Ok(Null) else MakeBinary(name, Read(rest[..p], depth), Read(rest[p..], depth))
    decreases depth, 2
  {
    hide Scan, Read, BinaryOpOf;
    var found, p := FindArgument(s, a, l);
    if !found { return Ok(Null); }
    Halves(s, a, p, l);
    var arg0 := ReadText(s, a, p, depth);
    if arg0.Throw? { return arg0; }
    var arg1 := ReadText(s, p, l, depth);
    r := MakeBinary(name, arg0, arg1);
  }

  method WriteText(e: Expr) returns (out: string)
    requires Whole(e)
    ensures out == Print(e)
  {
    match e
    case Symbol(r) => out := ResourceName(r);
    case Constant(Boolean(b)) => out := if b then "1" else "0";
    case Constant(U64(n)) => out := Digits(n);
    case Constant(Text(s)) => out := WriteString(s);
    case Name(s) => out := s;
    case Unary(op, a) =>
      var arg := WriteText(a);
      out := "(" + (UnaryName(op) + " " + arg) + ")";
    case Binary(op, a, b) =>
      var arg0 := WriteText(a);
      var arg1 := WriteText(b);
      out := "(" + (BinaryName(op) + " " + (arg0 + " " + arg1)) + ")";
  }

  /** What was written is read. */
  method WriteAndRead(e: Expr, depth: int) returns (r: Result)
    requires Whole(e)
    ensures r == Ok(e) <==> Plain(e) && Height(e) <= depth
  {
    var text := WriteText(e);
    RoundTrip(e, depth);
    assert text[0..|text|] == text;
    r := ReadText(text, 0, |text|, depth);
  }
}
