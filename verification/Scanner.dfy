/** The lexer as a program (lib/token.c): it reads its input one character at a time, gives one character
    back where it read too far, and does exactly what the lexer function says. */
module Scanner {
  import opened Bytes
  import L = Lexer
  import T = Tokens

  class Scanner {
    const input: seq<byte>
    var pos: nat

    predicate Valid()
      reads this
    {
      pos <= |input|
    }

    /** What has not been read yet. */
    function Rest(): seq<byte>
      requires Valid()
      reads this
    {
      input[pos..]
    }

    /** ch is the character read last, or -1 for the end of the input. */
    predicate Held(ch: int)
      reads this
    {
      && Valid() && -1 <= ch < 256
      && (ch < 0 ==> pos == |input|)
      && (ch >= 0 ==> pos > 0 && input[pos - 1] == ch)
    }

    /** The input from that character on. */
    function From(ch: int): (s: seq<byte>)
      requires Held(ch)
      reads this
      ensures ch >= 0 ==> s == [ch] + Rest()
      ensures ch < 0 ==> s == [] == Rest()
    {
      if ch < 0 then [] else input[pos - 1..]
    }

    constructor (input: seq<byte>)
      ensures Valid() && Rest() == input && this.input == input
    {
      this.input := input;
      pos := 0;
    }

    method Get() returns (ch: int)
      requires Valid()
      modifies this
      ensures Held(ch) && From(ch) == old(Rest())
      ensures ch < 0 ==> old(Rest()) == [] && Rest() == []
      ensures ch >= 0 ==> old(Rest()) != [] && ch == old(Rest())[0] && Rest() == old(Rest())[1..]
    {
      if pos == |input| {
        return -1;
      }
      ch := input[pos];
      pos := pos + 1;
    }

    method Unget(ch: int)
      requires Held(ch)
      modifies this
      ensures Valid() && Rest() == old(From(ch))
    {
      if ch >= 0 {
        pos := pos - 1;
      }
    }

    // -------------------------------------------------------------- spaces and comments

    /** Skips white space and returns the character behind it. */
    method SkipSpaces() returns (ch: int)
      requires Valid()
      modifies this
      ensures Held(ch) && From(ch) == L.SkipSpaces(old(Rest()))
    {
      ch := Get();
      while ch >= 0 && L.IsSpace(ch)
        invariant Held(ch) && L.SkipSpaces(From(ch)) == L.SkipSpaces(old(Rest()))
        decreases |From(ch)|
      {
        T.LexSpace(From(ch));
        ch := Get();
      }
      T.NoSpace(From(ch));
    }

    /** Skips to the end of the line, which is left to be read. */
    method SkipLine()
      requires Valid()
      modifies this
      ensures Valid() && Rest() == L.SkipLine(old(Rest()))
    {
      var ch := Get();
      while ch >= 0 && ch != L.NL
        invariant Held(ch) && L.SkipLine(From(ch)) == L.SkipLine(old(Rest()))
        decreases |From(ch)|
      {
        ch := Get();
      }
      Unget(ch);
    }

    /** Skips a block comment. */
    method SkipLong()
      requires Valid()
      modifies this
      ensures Valid() && Rest() == L.SkipBlock(old(Rest()))
    {
      hide L.SkipBlock, From, Rest;
      var ch := Get();
      while ch >= 0
        invariant Held(ch) && L.SkipBlock(From(ch)) == L.SkipBlock(old(Rest()))
        decreases |From(ch)|
      {
        ghost var t := From(ch);
        BlockStep(t);
        assert t[1..] == Rest();
        if ch == L.STAR {
          ch := Get();
          if ch == L.SLASH {
            assert t[2..] == Rest();
            return;
          }
        } else {
          ch := Get();
        }
      }
      BlockStep([]);
    }

    // -------------------------------------------------------------- names and numbers

    /** Appends characters to buf as long as they belong to a class. */
    method TakeWhile(p: byte -> bool, buf: seq<byte>, ch: int) returns (buf': seq<byte>, ch': int, ghost n: nat)
      requires Held(ch)
      modifies this
      ensures Held(ch') && n == L.Span(p, old(From(ch)))
      ensures buf' == buf + old(From(ch))[..n] && From(ch') == old(From(ch))[n..]
    {
      hide From, Rest;
      buf', ch', n := buf, ch, 0;
      ghost var s := From(ch);
      while ch' >= 0 && p(ch')
        invariant Held(ch') && n <= |s| && From(ch') == s[n..] && buf' == buf + s[..n]
        invariant forall i :: 0 <= i < n ==> p(s[i])
        decreases |From(ch')|
      {
        ghost var t := From(ch');
        assert t[0] == s[n] && t[1..] == s[n + 1..];
        buf' := buf' + [ch'];
        assert s[..n + 1] == s[..n] + [s[n]];
        n := n + 1;
        ch' := Get();
      }
      T.SpanIs(p, s, n);
    }

    method ScanIdent(ch: int) returns (tok: L.Token)
      requires Held(ch) && ch >= 0 && L.IsIdentStart(ch)
      modifies this
      ensures Valid() && L.Pos(tok, Rest()) == L.LexAt(old(From(ch)))
    {
      hide From, Rest;
      ghost var s := From(ch);
      var c := Get();
      var buf, c', n := TakeWhile(L.IsIdentChar, [ch], c);
      assert s[..1 + n] == [ch] + s[1..][..n] && s[1 + n..] == s[1..][n..];
      T.LexName(s);
      T.NoSpace(s);
      Unget(c');
      tok := L.Ident(buf);
    }

    /** A number from its sign or first digit on.  The C library's conversions are the value functions of
        the lexer. */
    method ScanNum(ch: int) returns (tok: L.Token)
      requires Held(ch) && ch >= 0 && (ch == L.MINUS ==> Rest() != [])
      modifies this
      ensures Valid() && L.Pos(tok, Rest()) == L.ScanNum(old(From(ch)))
    {
      hide L.ScanNum, L.Value, L.Span, L.IsHex, L.IsDigit, L.IsOctal, L.FloatTail, From, Rest;
      ghost var s := From(ch);
      var neg, first, sign := ch == L.MINUS, ch, [];
      if neg {
        sign := [ch];
        first := Get();
      }
      ghost var d := From(first);
      assert s == sign + d;
      var c := Get();
      assert From(c) == d[1..];
      assert c >= 0 ==> |d| > 1 && c == d[1];
      if first == L.ZERO && c >= 0 && (c == L.LOWER_X || c == 88) {
        tok := ScanHex(s, d, neg);
      } else if first == L.ZERO && c >= 0 && L.IsOctal(c) {
        tok := ScanOctal(s, d, neg, c);
      } else {
        tok := ScanDecimal(s, d, sign, first, c);
      }
    }

    method ScanHex(ghost s: seq<byte>, ghost d: seq<byte>, neg: bool) returns (tok: L.Token)
      requires Valid() && |d| > 1 && d[0] == L.ZERO && (d[1] == L.LOWER_X || d[1] == 88) && Rest() == d[2..]
      requires s == (if neg then [L.MINUS] else []) + d
      modifies this
      ensures Valid() && L.Pos(tok, Rest()) == L.ScanNum(s)
    {
      hide L.ScanNum, L.Value, L.Span, L.IsHex, L.IntToken, From, Rest;
      var c := Get();
      var digits;
      ghost var n;
      digits, c, n := TakeWhile(L.IsHex, [], c);
      assert digits == d[2..][..n];
      HexNumber(s, d, n);
      Unget(c);
      tok := L.IntToken(neg, L.Value(digits, 16));
    }

    method ScanOctal(ghost s: seq<byte>, ghost d: seq<byte>, neg: bool, ch: int) returns (tok: L.Token)
      requires Held(ch) && |d| > 1 && d[0] == L.ZERO && L.IsOctal(d[1]) && From(ch) == d[1..]
      requires s == (if neg then [L.MINUS] else []) + d
      modifies this
      ensures Valid() && L.Pos(tok, Rest()) == L.ScanNum(s)
    {
      hide L.ScanNum, L.Value, L.Span, L.IsOctal, L.IntToken, From, Rest;
      var digits, c;
      ghost var n;
      digits, c, n := TakeWhile(L.IsOctal, [], ch);
      assert digits == d[1..][..n];
      OctalNumber(s, d, n);
      Unget(c);
      tok := L.IntToken(neg, L.Value(digits, 8));
    }

    /** The rest of a decimal number, and a fraction and exponent if there are any. */
    method ScanDecimal(ghost s: seq<byte>, ghost d: seq<byte>, sign: seq<byte>, first: int, ch: int)
      returns (tok: L.Token)
      requires Held(ch) && d != [] && d[0] == first && From(ch) == d[1..] && s == sign + d
      requires sign == if s[0] == L.MINUS then [L.MINUS] else []
      requires !HexOrOctal(d)
      modifies this
      ensures Valid() && L.Pos(tok, Rest()) == L.ScanNum(s)
    {
      hide L.ScanNum, L.Value, L.Span, L.IsDigit, L.FloatTail, L.IntToken, HexOrOctal, From, Rest;
      var digits, c := [first], ch;
      ghost var n := 0;
      if first != L.ZERO {
        digits, c, n := TakeWhile(L.IsDigit, [first], c);
      }
      ghost var m := 1 + n;
      Continues(d, n);
      assert digits == d[..m] && From(c) == d[m..];
      var tail;
      tail, c := ScanTail(c);
      Unget(c);
      tok := if tail == [] then L.IntToken(sign != [], L.Value(digits, 10)) else L.Float(sign + digits + tail);
      DecimalToken(s, d, sign, m);
    }

    /** A fraction and an exponent, if there are any. */
    method ScanTail(ch: int) returns (tail: seq<byte>, c: int)
      requires Held(ch)
      modifies this
      ensures Held(c)
      ensures var n := L.FloatTail(old(From(ch))); tail == old(From(ch))[..n] && From(c) == old(From(ch))[n..]
    {
      hide L.Span, L.IsDigit, L.Fraction, L.Exponent, L.FloatTail, From, Rest;
      ghost var s := From(ch);
      tail, c := ScanFraction(ch);
      TailParts(s);
      var more;
      more, c := ScanExponent(c);
      tail := tail + more;
    }

    method ScanFraction(ch: int) returns (tail: seq<byte>, c: int)
      requires Held(ch)
      modifies this
      ensures Held(c)
      ensures var n := L.Fraction(old(From(ch))); tail == old(From(ch))[..n] && From(c) == old(From(ch))[n..]
    {
      hide L.Span, L.IsDigit, From, Rest;
      tail, c := [], ch;
      if c == L.DOT {
        ghost var s := From(ch);
        c := Get();
        assert From(c) == s[1..];
        ghost var n;
        tail, c, n := TakeWhile(L.IsDigit, [ch], c);
        Continues(s, n);
      }
    }

    method ScanExponent(ch: int) returns (tail: seq<byte>, c: int)
      requires Held(ch)
      modifies this
      ensures Held(c)
      ensures var n := L.Exponent(old(From(ch))); tail == old(From(ch))[..n] && From(c) == old(From(ch))[n..]
    {
      hide L.Span, L.IsDigit, From, Rest;
      tail, c := [], ch;
      if c == 101 || c == 69 {
        ghost var s := From(ch);
        tail := [c];
        c := Get();
        ghost var m := 1;
        if c == 43 || c == L.MINUS {
          tail := tail + [c];
          c := Get();
          m := 2;
        }
        assert From(c) == s[m..] && tail == s[..m];
        ExponentParts(s, m);
        ghost var k;
        tail, c, k := TakeWhile(L.IsDigit, tail, c);
      }
    }

    // -------------------------------------------------------------- strings

    /** An escape sequence, its backslash being read. */
    method Unescape() returns (b: byte)
      requires Valid()
      modifies this
      ensures Valid()
      ensures var s := [L.BACKSLASH] + old(Rest()); b == L.Escape(s).0 && Rest() == s[L.Escape(s).1..]
    {
      hide L.Value, L.Escape, L.SimpleEscape, L.IsOctal, L.IsHex, L.Span, From, Rest;
      ghost var s := [L.BACKSLASH] + Rest();
      var ch := Get();
      assert From(ch) == s[1..];
      if ch >= 0 && L.SimpleEscape(ch) >= 0 {
        SimpleSequence(s);
        assert Rest() == s[1..][1..] == s[2..];
        return L.SimpleEscape(ch);
      }
      var n, x;
      ghost var from;
      if ch == L.LOWER_X {
        from := 2;
        ch := Get();
        assert From(ch) == s[1..][1..] == s[2..];
        n, x, ch := HexDigits(ch, s);
      } else {
        from := 1;
        n, x, ch := OctalDigits(ch, s);
      }
      assert s[from..][n..] == s[from + n..];
      assert n == 0 ==> From(ch) == s[from..];
      Unget(ch);
      b := if n > 0 then x % 256 else if ch < 0 then 255 else ch;
    }

    /** Up to two hexadecimal digits. */
    method HexDigits(ch: int, ghost s: seq<byte>) returns (n: nat, x: nat, c: int)
      requires Held(ch) && |s| > 1 && s[0] == L.BACKSLASH && s[1] == L.LOWER_X && From(ch) == s[2..]
      modifies this
      ensures Held(c) && n <= |s| - 2 && From(c) == s[2..][n..] && 2 + n == L.Escape(s).1
      ensures L.Escape(s).0 == if n > 0 then x % 256 else L.CharAt(s, 2)
    {
      hide L.Escape, L.IsHex, From, Rest;
      ghost var t := s[2..];
      n, x, c := 0, 0, ch;
      while c >= 0 && L.IsHex(c) && n < 2
        invariant Held(c) && n <= 2 && n <= |t| && From(c) == t[n..]
        invariant forall i :: 0 <= i < n ==> L.IsHex(t[i])
        invariant x == HexValue(t[..n])
        decreases 2 - n
      {
        HexMore(t, n);
        assert t[n..][1..] == t[n + 1..];
        x := x * 16 + (c - L.ZERO);
        c := Get();
        n := n + 1;
      }
      HexEscape(s, n);
    }

    /** Up to three octal digits. */
    method OctalDigits(ch: int, ghost s: seq<byte>) returns (n: nat, x: nat, c: int)
      requires Held(ch) && |s| > 0 && s[0] == L.BACKSLASH && From(ch) == s[1..]
      requires |s| > 1 ==> L.SimpleEscape(s[1]) < 0 && s[1] != L.LOWER_X
      modifies this
      ensures Held(c) && n <= |s| - 1 && From(c) == s[1..][n..] && 1 + n == L.Escape(s).1
      ensures L.Escape(s).0 == if n > 0 then x % 256 else L.CharAt(s, 1)
    {
      hide L.Escape, L.IsOctal, L.Value, L.SimpleEscape, From, Rest;
      ghost var t := s[1..];
      n, x, c := 0, 0, ch;
      NoValue(t);
      while c >= 0 && L.IsOctal(c) && n < 3
        invariant Held(c) && n <= 3 && n <= |t| && From(c) == t[n..]
        invariant forall i :: 0 <= i < n ==> L.IsOctal(t[i])
        invariant x == L.Value(t[..n], 8)
        decreases 3 - n
      {
        OctalMore(t, n);
        assert t[n..][1..] == t[n + 1..];
        x := x * 8 + (c - L.ZERO);
        c := Get();
        n := n + 1;
      }
      OctalEscape(s, n);
    }

    /** The characters of one literal up to its closing quote or the end of the input. */
    method ScanChars(buf: seq<byte>) returns (buf': seq<byte>)
      requires Valid()
      modifies this
      ensures Valid()
      ensures buf' == buf + L.StrChars(old(Rest())).0 && Rest() == L.StrChars(old(Rest())).1
    {
      hide L.Escape, L.StrChars, From, Rest;
      ghost var s := Rest();
      var ch := Get();
      buf' := buf;
      while ch >= 0 && ch != L.QUOTE
        invariant Held(ch)
        invariant buf + L.StrChars(s).0 == buf' + L.StrChars(From(ch)).0
        invariant L.StrChars(s).1 == L.StrChars(From(ch)).1
        decreases |From(ch)|
      {
        ghost var t, before := From(ch), buf';
        CharsStep(t);
        if ch == L.BACKSLASH {
          var b := Unescape();
          buf' := buf' + [b];
          assert before + ([b] + L.StrChars(Rest()).0) == buf' + L.StrChars(Rest()).0;
        } else {
          buf' := buf' + [ch];
          assert t[1..] == Rest();
          assert before + ([t[0]] + L.StrChars(Rest()).0) == buf' + L.StrChars(Rest()).0;
        }
        ch := Get();
      }
      CharsStep(From(ch));
      assert ch == L.QUOTE ==> From(ch)[1..] == Rest();
    }

    /** A string literal, its opening quote being read; adjacent literals are joined. */
    method ScanStr() returns (tok: L.Token)
      requires Valid()
      modifies this
      ensures Valid() && L.Pos(tok, Rest()) == L.ScanStr(old(Rest()))
    {
      hide L.StrChars, L.SkipSpaces, L.ScanStr, From, Rest;
      ghost var s := Rest();
      var buf: seq<byte> := [];
      var more := true;
      while more
        invariant Valid()
        invariant more ==> L.ScanStr(s) == L.Pos(L.Str(buf + L.ScanStr(Rest()).tok.s), L.ScanStr(Rest()).rest)
        invariant !more ==> L.ScanStr(s) == L.Pos(L.Str(buf), Rest())
        decreases more, |Rest()|
      {
        ghost var r, olds := Rest(), buf;
        LiteralStep(r);
        buf := ScanChars(buf);
        var ch := SkipSpaces();
        if ch != L.QUOTE {
          Unget(ch);
          more := false;
        } else {
          assert From(ch)[1..] == Rest();
          assert olds + (L.StrChars(r).0 + L.ScanStr(Rest()).tok.s) == buf + L.ScanStr(Rest()).tok.s;
        }
      }
      tok := L.Str(buf);
    }

    // -------------------------------------------------------------- tokens

    /** The next token. */
    method Lex() returns (tok: L.Token)
      requires Valid()
      modifies this
      ensures Valid() && L.Pos(tok, Rest()) == L.Lex(old(Rest()))
    {
      hide L.ScanNum, L.ScanStr, L.SkipBlock, L.SkipLine, L.SkipSpaces;
      ghost var s := Rest();
      while true
        invariant Valid() && L.Lex(Rest()) == L.Lex(s)
        decreases |Rest()|
      {
        ghost var r := Rest();
        var ch := SkipSpaces();
        ghost var t := From(ch);
        assert L.Lex(r) == L.LexAt(t);
        if ch == L.SLASH {
          ch := Get();
          if ch == L.STAR {
            assert t[2..] == Rest();
            SkipLong();
          } else if ch == L.SLASH {
            assert t[2..] == Rest();
            SkipLine();
          } else {
            assert |t| > 1 ==> t[2..] == Rest();
            EndOfInput();
          }
        } else if ch == L.HASH {
          assert t[1..] == Rest();
          SkipLine();
        } else if ch == L.QUOTE {
          assert t[1..] == Rest();
          tok := ScanStr();
          return;
        } else if ch == L.MINUS {
          var next := Get();
          Unget(next);
          if next >= 0 && L.IsDigit(next) {
            tok := ScanNum(ch);
            return;
          }
          return L.Punct(L.MINUS);
        } else if ch < 0 {
          return L.Eof;
        } else if L.IsDigit(ch) {
          tok := ScanNum(ch);
          return;
        } else if L.IsIdentStart(ch) {
          tok := ScanIdent(ch);
          return;
        } else {
          return L.Punct(ch);
        }
      }
    }
  }

  lemma EndOfInput()
    ensures L.Lex([]) == L.Pos(L.Eof, [])
  {
    assert L.SkipSpaces([]) == [];
  }

  // ---------------------------------------------------------------- the lexer's functions, step by step

  lemma BlockStep(t: seq<byte>)
    ensures t == [] ==> L.SkipBlock(t) == []
    ensures t != [] && !(t[0] == L.STAR && |t| > 1 && t[1] == L.SLASH) ==> L.SkipBlock(t) == L.SkipBlock(t[1..])
    ensures |t| > 1 && t[0] == L.STAR && t[1] == L.SLASH ==> L.SkipBlock(t) == t[2..]
  {
  }

  lemma CharsStep(t: seq<byte>)
    ensures t == [] ==> L.StrChars(t) == ([], [])
    ensures t != [] && t[0] == L.QUOTE ==> L.StrChars(t) == ([], t[1..])
    ensures t != [] && t[0] == L.BACKSLASH ==>
              var (c, n) := L.Escape(t); L.StrChars(t) == ([c] + L.StrChars(t[n..]).0, L.StrChars(t[n..]).1)
    ensures t != [] && t[0] != L.QUOTE && t[0] != L.BACKSLASH ==>
              L.StrChars(t) == ([t[0]] + L.StrChars(t[1..]).0, L.StrChars(t[1..]).1)
  {
    hide L.Escape;
  }

  /** One literal, and what is joined to it. */
  lemma LiteralStep(s: seq<byte>)
    ensures var (cs, rest) := L.StrChars(s);
            var next := L.SkipSpaces(rest);
            L.ScanStr(s) == if next != [] && next[0] == L.QUOTE
                            then L.Pos(L.Str(cs + L.ScanStr(next[1..]).tok.s), L.ScanStr(next[1..]).rest)
                            else L.Pos(L.Str(cs), next)
  {
    hide L.StrChars, L.SkipSpaces;
  }

  lemma Continues(d: seq<byte>, n: nat)
    requires 1 + n <= |d|
    ensures d[..1 + n] == [d[0]] + d[1..][..n] && d[1 + n..] == d[1..][n..]
  {
  }

  lemma TailParts(s: seq<byte>)
    ensures var f := L.Fraction(s);
            var n := L.Exponent(s[f..]);
            && L.FloatTail(s) == f + n
            && s[..f + n] == s[..f] + s[f..][..n] && s[f + n..] == s[f..][n..]
  {
    hide L.Fraction, L.Exponent;
  }

  lemma ExponentParts(s: seq<byte>, m: nat)
    requires s != [] && (s[0] == 101 || s[0] == 69)
    requires m == if |s| > 1 && (s[1] == 43 || s[1] == L.MINUS) then 2 else 1
    ensures var k := L.Span(L.IsDigit, s[m..]);
            && L.Exponent(s) == m + k
            && s[..m + k] == s[..m] + s[m..][..k] && s[m + k..] == s[m..][k..]
  {
    hide L.Span;
  }

  predicate HexOrOctal(d: seq<byte>) {
    |d| > 1 && d[0] == L.ZERO && (d[1] == L.LOWER_X || d[1] == 88 || L.IsOctal(d[1]))
  }

  lemma HexNumber(s: seq<byte>, d: seq<byte>, n: nat)
    requires |d| > 1 && s == (if s != [] && s[0] == L.MINUS then [L.MINUS] else []) + d
    requires d[0] == L.ZERO && (d[1] == L.LOWER_X || d[1] == 88) && n == L.Span(L.IsHex, d[2..])
    ensures L.ScanNum(s) == L.Pos(L.IntToken(s[0] == L.MINUS, L.Value(d[2..][..n], 16)), d[2..][n..])
  {
    hide L.Value, L.Span, L.IntToken;
    assert d == if s[0] == L.MINUS then s[1..] else s;
    assert d[2..2 + n] == d[2..][..n] && d[2 + n..] == d[2..][n..];
  }

  lemma OctalNumber(s: seq<byte>, d: seq<byte>, n: nat)
    requires |d| > 1 && s == (if s != [] && s[0] == L.MINUS then [L.MINUS] else []) + d
    requires d[0] == L.ZERO && L.IsOctal(d[1]) && n == L.Span(L.IsOctal, d[1..])
    ensures L.ScanNum(s) == L.Pos(L.IntToken(s[0] == L.MINUS, L.Value(d[1..][..n], 8)), d[1..][n..])
  {
    hide L.Value, L.Span, L.IntToken;
    assert d == if s[0] == L.MINUS then s[1..] else s;
    assert d[1..1 + n] == d[1..][..n] && d[1 + n..] == d[1..][n..];
  }

  lemma DecimalNumber(s: seq<byte>, d: seq<byte>, m: nat)
    requires d != [] && !HexOrOctal(d) && s == (if s != [] && s[0] == L.MINUS then [L.MINUS] else []) + d
    requires m == (if d[0] == L.ZERO then 1 else 1 + L.Span(L.IsDigit, d[1..]))
    ensures m <= |d|
    ensures var t := L.FloatTail(d[m..]);
            L.ScanNum(s) == if t > 0 then L.Pos(L.Float(s[..|s| - |d| + m + t]), d[m + t..])
                            else L.Pos(L.IntToken(s[0] == L.MINUS, L.Value(d[..m], 10)), d[m..])
  {
    hide L.Value, L.Span, L.IntToken, L.FloatTail;
    assert d == if s[0] == L.MINUS then s[1..] else s;
  }

  /** The token of a decimal number, and what is left behind it. */
  lemma DecimalToken(s: seq<byte>, d: seq<byte>, sign: seq<byte>, m: nat)
    requires d != [] && !HexOrOctal(d) && s == sign + d && sign == (if s[0] == L.MINUS then [L.MINUS] else [])
    requires m == (if d[0] == L.ZERO then 1 else 1 + L.Span(L.IsDigit, d[1..]))
    ensures m <= |d|
    ensures var tail := d[m..][..L.FloatTail(d[m..])];
            L.ScanNum(s) == L.Pos(if tail == [] then L.IntToken(sign != [], L.Value(d[..m], 10))
                                  else L.Float(sign + d[..m] + tail),
                                  d[m..][L.FloatTail(d[m..])..])
  {
    hide L.Value, L.Span, L.IntToken, L.FloatTail, L.ScanNum, HexOrOctal;
    DecimalNumber(s, d, m);
    FloatText(sign, d, m, L.FloatTail(d[m..]));
  }

  lemma FloatText(sign: seq<byte>, d: seq<byte>, m: nat, t: nat)
    requires m + t <= |d|
    ensures sign + d[..m] + d[m..][..t] == (sign + d)[..|sign| + m + t] && d[m..][t..] == d[m + t..]
  {
  }

  function HexValue(h: seq<byte>): int {
    if h == [] then 0 else HexValue(h[..|h| - 1]) * 16 + L.HexWeight(h[|h| - 1])
  }

  lemma HexMore(t: seq<byte>, n: nat)
    requires n < |t| && L.IsHex(t[n])
    ensures HexValue(t[..n + 1]) == HexValue(t[..n]) * 16 + L.HexWeight(t[n])
    ensures t[n] >= L.ZERO && L.HexWeight(t[n]) == t[n] - L.ZERO
  {
    assert t[..n + 1][..n] == t[..n];
  }

  /** What the digits found say about the escape sequence. */
  lemma HexEscape(s: seq<byte>, n: nat)
    requires |s| > 1 && s[0] == L.BACKSLASH && s[1] == L.LOWER_X && n <= 2 && n <= |s| - 2
    requires forall i :: 0 <= i < n ==> L.IsHex(s[2..][i])
    requires n < 2 && n < |s| - 2 ==> !L.IsHex(s[2..][n])
    ensures L.Escape(s).1 == 2 + n
    ensures L.Escape(s).0 == if n > 0 then HexValue(s[2..][..n]) % 256 else L.CharAt(s, 2)
  {
    hide L.IsHex;
    var t := s[2..];
    if n > 0 {
      HexMore(t, 0);
    }
    if n > 1 {
      HexMore(t, 1);
    }
    assert n > 0 ==> s[2] == t[0];
    assert n > 1 ==> s[3] == t[1];
  }

  lemma SimpleSequence(s: seq<byte>)
    requires |s| > 1 && s[0] == L.BACKSLASH && L.SimpleEscape(s[1]) >= 0
    ensures L.Escape(s) == (L.SimpleEscape(s[1]), 2)
  {
    hide L.SimpleEscape;
  }

  lemma NoValue(t: seq<byte>)
    ensures L.Value(t[..0], 8) == 0
  {
  }

  lemma OctalMore(t: seq<byte>, n: nat)
    requires n < |t| && L.IsOctal(t[n])
    ensures L.Value(t[..n + 1], 8) == L.Value(t[..n], 8) * 8 + (t[n] - L.ZERO) && t[n] >= L.ZERO
  {
    assert t[..n + 1][..n] == t[..n];
  }

  lemma OctalEscape(s: seq<byte>, n: nat)
    requires |s| > 0 && s[0] == L.BACKSLASH && n <= 3 && n <= |s| - 1
    requires |s| > 1 ==> L.SimpleEscape(s[1]) < 0 && s[1] != L.LOWER_X
    requires forall i :: 0 <= i < n ==> L.IsOctal(s[1..][i])
    requires n < 3 && n < |s| - 1 ==> !L.IsOctal(s[1..][n])
    ensures L.Escape(s).1 == 1 + n
    ensures L.Escape(s).0 == if n > 0 then L.Value(s[1..][..n], 8) % 256 else L.CharAt(s, 1)
  {
    hide L.IsOctal, L.Value;
    var t := if |s| > 4 then s[1..4] else s[1..];
    T.SpanIs(L.IsOctal, t, n);
    assert n > 0 ==> s[1..1 + n] == s[1..][..n];
  }
}
