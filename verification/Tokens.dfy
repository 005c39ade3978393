/** Printed tokens read back: numbers, identifiers, and strings as far as the escapes allow. */
module Tokens {
  import opened Bytes
  import opened Lexer

  // ---------------------------------------------------------------- numbers

  /** Decimal digits. */
  function Dec(n: nat): (s: seq<byte>)
    ensures s != [] && forall i :: 0 <= i < |s| ==> IsDigit(s[i])
  {
    if n < 10 then [ZERO + n] else Dec(n / 10) + [ZERO + n % 10]
  }

  function DecInt(v: int): (s: seq<byte>)
    ensures s != []
  {
    if v < 0 then [MINUS] + Dec(-v) else Dec(v)
  }

  lemma {:induction false} DecValue(n: nat)
    ensures Value(Dec(n), 10) == n
    ensures Dec(n)[0] == ZERO ==> n == 0 && Dec(n) == [ZERO]
  {
    if n < 10 {
      assert Dec(n)[..0] == [];
    } else {
      DecValue(n / 10);
      var s := Dec(n / 10);
      assert Dec(n)[..|s|] == s && Dec(n)[|s|] == ZERO + n % 10;
    }
  }

  /** What may follow a printed number or name: nothing, or white space. */
  predicate Ends(rest: seq<byte>) {
    rest == [] || IsSpace(rest[0])
  }

  lemma {:induction false} SpanPrefix(p: byte -> bool, a: seq<byte>, rest: seq<byte>)
    requires forall i :: 0 <= i < |a| ==> p(a[i])
    requires rest == [] || !p(rest[0])
    ensures Span(p, a + rest) == |a|
  {
    if a == [] {
      assert a + rest == rest;
    } else {
      assert (a + rest)[1..] == a[1..] + rest;
      SpanPrefix(p, a[1..], rest);
    }
  }

  lemma NoSpace(s: seq<byte>)
    requires s == [] || !IsSpace(s[0])
    ensures SkipSpaces(s) == s
  {
  }

  /** The digits of n, read as a number without sign. */
  lemma ScanDec(n: nat, rest: seq<byte>)
    requires Ends(rest)
    ensures ScanNum(Dec(n) + rest) == Pos(IntToken(false, n), rest)
    ensures ScanNum([MINUS] + Dec(n) + rest) == Pos(IntToken(true, n), rest)
  {
    hide Dec, IntToken, Value, FloatTail, Span, ScanNum;
    DecValue(n);
    var d, m := Dec(n) + rest, [MINUS] + Dec(n) + rest;
    assert m[1..] == d;
    DecFront(Dec(n), rest);
    NoTail(rest);
    ZeroAlone(Dec(n), rest);
    ScanPlain(d, |Dec(n)|);
    ScanMinus(m, |Dec(n)|);
  }

  lemma DecFront(d: seq<byte>, rest: seq<byte>)
    requires d != [] && (forall i :: 0 <= i < |d| ==> IsDigit(d[i])) && Ends(rest)
    ensures (d + rest)[..|d|] == d && (d + rest)[|d|..] == rest
    ensures |d| == 1 + Span(IsDigit, (d + rest)[1..])
  {
    assert (d + rest)[1..] == d[1..] + rest;
    SpanPrefix(IsDigit, d[1..], rest);
  }

  /** A decimal number of n digits, nothing about it looking like another base or a float. */
  lemma ScanPlain(d: seq<byte>, n: nat)
    requires 0 < n <= |d| && IsDigit(d[0]) && FloatTail(d[n..]) == 0 && n == 1 + Span(IsDigit, d[1..])
    requires d[0] == ZERO ==> n == 1 && (|d| > 1 ==> IsSpace(d[1]))
    ensures ScanNum(d) == Pos(IntToken(false, Value(d[..n], 10)), d[n..])
  {
    hide IntToken, Value, FloatTail, Span;
  }

  lemma ScanMinus(m: seq<byte>, n: nat)
    requires 0 < n < |m| && m[0] == MINUS
    requires var d := m[1..];
             && IsDigit(d[0]) && FloatTail(d[n..]) == 0 && n == 1 + Span(IsDigit, d[1..])
             && (d[0] == ZERO ==> n == 1 && (|d| > 1 ==> IsSpace(d[1])))
    ensures ScanNum(m) == Pos(IntToken(true, Value(m[1..][..n], 10)), m[1..][n..])
  {
    hide IntToken, Value, FloatTail, Span;
  }

  lemma NoTail(rest: seq<byte>)
    requires Ends(rest)
    ensures FloatTail(rest) == 0
  {
  }

  lemma ZeroAlone(d: seq<byte>, rest: seq<byte>)
    requires Ends(rest) && d != [] && (d == [ZERO] || d[0] != ZERO)
    ensures d[0] == ZERO && |d + rest| > 1 ==> IsSpace((d + rest)[1]) && |d| == 1
  {
  }

  /** What starts like a number is an integer or a float. */
  lemma NumberToken(t: seq<byte>)
    requires t != [] && (t[0] == MINUS ==> |t| > 1)
    ensures !ScanNum(t).tok.Str? && !ScanNum(t).tok.Ident?
  {
  }

  lemma LexNumber(s: seq<byte>)
    requires s != [] && (IsDigit(s[0]) || (s[0] == MINUS && |s| > 1 && IsDigit(s[1])))
    ensures Lex(s) == ScanNum(s)
  {
    hide ScanNum;
    NoSpace(s);
  }

  /** Any signed 64-bit integer, printed in decimal and followed by white space, reads back as itself, and
      any unsigned one as the same 64-bit word. */
  lemma NumberRoundTrip(v: int, rest: seq<byte>)
    requires -I63 <= v < I64 && Ends(rest)
    ensures Lex(DecInt(v) + rest) == Pos(Int(if v < I63 then v else v - I64), rest)
  {
    hide ScanNum, Dec, Lex;
    var s := DecInt(v) + rest;
    LexNumber(s);
    if v < 0 {
      ScanDec(-v, rest);
    } else {
      ScanDec(v, rest);
    }
  }

  // ---------------------------------------------------------------- names

  predicate IsName(s: seq<byte>) {
    s != [] && IsIdentStart(s[0]) && forall i :: 0 <= i < |s| ==> IsIdentChar(s[i])
  }

  lemma NameRoundTrip(name: seq<byte>, rest: seq<byte>)
    requires IsName(name) && (rest == [] || !IsIdentChar(rest[0]))
    ensures Lex(name + rest) == Pos(Ident(name), rest)
  {
    hide Lex;
    var s := name + rest;
    LexName(s);
    assert s[1..] == name[1..] + rest;
    SpanPrefix(IsIdentChar, name[1..], rest);
    assert s[..|name|] == name && s[|name|..] == rest;
  }

  lemma LexName(s: seq<byte>)
    requires s != [] && IsIdentStart(s[0])
    ensures Lex(s) == Pos(Ident(s[..1 + Span(IsIdentChar, s[1..])]), s[1 + Span(IsIdentChar, s[1..])..])
  {
    hide ScanNum, ScanStr, SkipBlock, SkipLine;
    NoSpace(s);
  }

  lemma LexSpace(s: seq<byte>)
    requires s != [] && IsSpace(s[0])
    ensures SkipSpaces(s) == SkipSpaces(s[1..]) && Lex(s) == Lex(s[1..])
  {
    hide LexAt;
    assert s[Span(IsSpace, s)..] == s[1..][Span(IsSpace, s[1..])..];
  }

  lemma {:induction false} LexSkips(spaces: seq<byte>, rest: seq<byte>)
    requires forall i :: 0 <= i < |spaces| ==> IsSpace(spaces[i])
    ensures Lex(spaces + rest) == Lex(rest) && SkipSpaces(spaces + rest) == SkipSpaces(rest)
  {
    hide Lex, SkipSpaces;
    if spaces == [] {
      assert spaces + rest == rest;
    } else {
      var s := spaces + rest;
      assert s[1..] == spaces[1..] + rest;
      LexSkips(spaces[1..], rest);
      LexSpace(s);
    }
  }

  lemma PunctRoundTrip(c: byte, rest: seq<byte>)
    requires c in {COLON, OPEN, CLOSE, 44, 59, 61, 91, 93}
    ensures Lex([c] + rest) == Pos(Punct(c), rest)
  {
    hide ScanNum, ScanStr, SkipBlock, SkipLine, SkipSpaces;
    var t := [c] + rest;
    NoSpace(t);
    assert t[0] == c && t[1..] == rest;
  }

  // ---------------------------------------------------------------- strings

  function HexDigit(d: nat): byte
    requires d < 16
  {
    if d < 10 then ZERO + d else 87 + d
  }

  /** How the printer writes one byte of a string. */
  function EscapeByte(b: byte): (s: seq<byte>)
    ensures s != []
  {
    if b == QUOTE then [BACKSLASH, QUOTE]
    else if IsPrint(b) then [b]
    else [BACKSLASH, LOWER_X, HexDigit(b / 16), HexDigit(b % 16)]
  }

  function EscapeAll(s: seq<byte>): seq<byte> {
    if s == [] then [] else EscapeByte(s[0]) + EscapeAll(s[1..])
  }

  /** A printed string literal. */
  function Dump(s: seq<byte>): seq<byte> {
    [QUOTE] + EscapeAll(s) + [QUOTE]
  }

  /** Bytes that survive: printable ones except the backslash, and those whose hexadecimal form has no
      letter. */
  predicate SafeByte(b: byte) {
    if IsPrint(b) then b != BACKSLASH else b / 16 < 10 && b % 16 < 10
  }

  predicate Safe(s: seq<byte>) {
    forall i :: 0 <= i < |s| ==> SafeByte(s[i])
  }

  /** No further string literal follows. */
  predicate NoLiteral(rest: seq<byte>) {
    SkipSpaces(rest) == [] || SkipSpaces(rest)[0] != QUOTE
  }

  /** White space follows, and then no further string literal. */
  predicate EndsString(rest: seq<byte>) {
    rest != [] && IsSpace(rest[0]) && NoLiteral(rest)
  }

  /** What the lexer makes of the body of a printed literal. */
  function Body(s: seq<byte>, rest: seq<byte>): seq<byte> {
    EscapeAll(s) + [QUOTE] + rest
  }

  function Read(s: seq<byte>, rest: seq<byte>): seq<byte> {
    ScanStr(Body(s, rest)).tok.s
  }

  /** One character more in front. */
  lemma ScanFront(y: seq<byte>, z: seq<byte>, c: byte)
    requires StrChars(y) == ([c] + StrChars(z).0, StrChars(z).1)
    ensures ScanStr(y) == Pos(Str([c] + ScanStr(z).tok.s), ScanStr(z).rest)
  {
    hide StrChars, SkipSpaces;
    var (cs, rest) := StrChars(z);
    var next := SkipSpaces(rest);
    if next != [] && next[0] == QUOTE {
      assert [c] + cs + ScanStr(next[1..]).tok.s == [c] + (cs + ScanStr(next[1..]).tok.s);
    }
  }

  /** The byte that the lexer reads from a hexadecimal escape of b. */
  function Misread(b: byte): byte {
    (HexWeight(HexDigit(b / 16)) * 16 + HexWeight(HexDigit(b % 16))) % 256
  }

  lemma MisreadIff(b: byte)
    ensures Misread(b) == b <==> b / 16 < 10 && b % 16 < 10
    ensures Misread(b) != BACKSLASH || b == BACKSLASH
  {
    var h, l := b / 16, b % 16;
    assert b == 16 * h + l;
    var v := HexWeight(HexDigit(h)) * 16 + HexWeight(HexDigit(l));
    assert v == b + (if h < 10 then 0 else 624) + (if l < 10 then 0 else 39);
    MisreadValue(h, l, v);
  }

  lemma MisreadValue(h: nat, l: nat, v: nat)
    requires h < 16 && l < 16
    requires v == 16 * h + l + (if h < 10 then 0 else 624) + (if l < 10 then 0 else 39)
    ensures v % 256 == 16 * h + l <==> h < 10 && l < 10
    ensures v % 256 == BACKSLASH ==> 16 * h + l == BACKSLASH
  {
    if h < 10 && l < 10 {
    } else if h < 10 {
      assert v % 16 == l - 9;
    } else if l < 10 {
      assert v % 16 == l;
      assert v == 16 * (h + 39) + l;
    } else {
      assert v % 16 == l - 9;
    }
  }

  /** A byte other than a backslash is read as itself, or, if it is escaped, as the lexer reads hex. */
  lemma ReadFront(b: byte, t: seq<byte>, rest: seq<byte>)
    requires b != BACKSLASH
    ensures var c := if IsPrint(b) then b else Misread(b);
            ScanStr(Body([b] + t, rest)) == Pos(Str([c] + Read(t, rest)), ScanStr(Body(t, rest)).rest)
  {
    var c := if IsPrint(b) then b else Misread(b);
    var y, z := Body([b] + t, rest), Body(t, rest);
    assert ([b] + t)[1..] == t;
    var n := |EscapeByte(b)|;
    assert y == EscapeByte(b) + z;
    assert y[n..] == z;
    if IsPrint(b) && b != QUOTE {
      assert y[0] == b;
    } else if b == QUOTE {
      assert Escape(y) == (QUOTE, 2);
    } else {
      assert y[0] == BACKSLASH && y[1] == LOWER_X && y[2] == HexDigit(b / 16) && y[3] == HexDigit(b % 16);
      assert Escape(y) == (Misread(b), 4);
    }
    ScanFront(y, z, c);
  }

  lemma ReadNothing(rest: seq<byte>)
    requires NoLiteral(rest)
    ensures ScanStr(Body([], rest)) == Pos(Str([]), SkipSpaces(rest)) && Read([], rest) == []
  {
    var y := Body([], rest);
    assert y == [QUOTE] + rest && y[1..] == rest;
  }

  /** Strings of safe bytes survive printing and reading, embedded NULs, quotes and digits included. */
  lemma {:induction false} SafeRoundTrip(s: seq<byte>, rest: seq<byte>)
    requires Safe(s) && NoLiteral(rest)
    ensures ScanStr(Body(s, rest)) == Pos(Str(s), SkipSpaces(rest))
  {
    if s == [] {
      ReadNothing(rest);
    } else {
      SafeRoundTrip(s[1..], rest);
      ReadFront(s[0], s[1..], rest);
      MisreadIff(s[0]);
      assert s == [s[0]] + s[1..];
    }
  }

  /** The printed literal as a token. */
  lemma StringRoundTrip(s: seq<byte>, rest: seq<byte>)
    requires Safe(s) && NoLiteral(rest)
    ensures Lex(Dump(s) + rest) == Pos(Str(s), SkipSpaces(rest))
  {
    hide Safe, ScanStr, EscapeAll, Lex, NoLiteral;
    var t := Dump(s) + rest;
    assert t[0] == QUOTE && t[1..] == Body(s, rest);
    LexQuote(t);
    SafeRoundTrip(s, rest);
  }

  lemma LexQuote(t: seq<byte>)
    requires t != [] && t[0] == QUOTE
    ensures Lex(t) == ScanStr(t[1..])
  {
    hide ScanStr;
    NoSpace(t);
  }

  // ---------------------------------------------------------------- strings that do not survive

  /** A closed literal is either all there is, or continued by what the white space behind it holds. */
  lemma ClosedHere(y: seq<byte>, z: seq<byte>, c: byte)
    requires StrChars(y) == ([c], z)
    ensures ScanStr(y).tok.s == [c]
      || (SkipSpaces(z) != [] && SkipSpaces(z)[0] == QUOTE
          && ScanStr(y).tok.s == [c] + ScanStr(SkipSpaces(z)[1..]).tok.s
          && ScanStr(y).rest == ScanStr(SkipSpaces(z)[1..]).rest)
  {
    hide StrChars, SkipSpaces;
  }

  /** The only unescaped quote in a printed body is the closing one, reached through spaces alone. */
  lemma {:induction false} QuoteAfterSpaces(t: seq<byte>, rest: seq<byte>)
    requires SkipSpaces(Body(t, rest)) != [] && SkipSpaces(Body(t, rest))[0] == QUOTE
    ensures SkipSpaces(Body(t, rest))[1..] == rest
  {
    var z := Body(t, rest);
    if t == [] {
      assert z == [QUOTE] + rest && z[1..] == rest;
      NoSpace(z);
    } else {
      FrontNotQuote(t, rest);
      assert z == [SPACE] + Body(t[1..], rest);
      LexSkips([SPACE], Body(t[1..], rest));
      QuoteAfterSpaces(t[1..], rest);
    }
  }

  lemma FrontNotQuote(t: seq<byte>, rest: seq<byte>)
    requires t != []
    ensures var z := Body(t, rest);
            z == [SPACE] + Body(t[1..], rest) || (SkipSpaces(z) == z && z != [] && z[0] != QUOTE)
  {
    var z := Body(t, rest);
    assert z == EscapeByte(t[0]) + Body(t[1..], rest);
    if EscapeByte(t[0])[0] != SPACE {
      NoSpace(z);
    }
  }

  lemma DoubleBackslash(y: seq<byte>, z: seq<byte>)
    requires |y| >= 2 && y[0] == y[1] == BACKSLASH && z == y[2..]
    ensures ScanStr(y).tok.s == [BACKSLASH] + ScanStr(z).tok.s
    ensures StrChars(y) == ([BACKSLASH] + StrChars(z).0, StrChars(z).1)
  {
    hide ScanStr;
    assert y[2..] == z && Escape(y) == (BACKSLASH, 2);
    ScanFront(y, z, BACKSLASH);
  }

  lemma BodyFront(t: seq<byte>, rest: seq<byte>)
    requires t != []
    ensures Body(t, rest) == EscapeByte(t[0]) + Body(t[1..], rest)
  {
  }

  lemma QuoteCloses(w: seq<byte>, z: seq<byte>)
    requires w == [QUOTE] + z
    ensures StrChars(w) == ([], z)
  {
    assert w[1..] == z;
  }

  /** A literal that begins with white space keeps it. */
  lemma {:induction false} CharsSpaces(s: seq<byte>)
    ensures StrChars(s).1 == StrChars(SkipSpaces(s)).1
    ensures SkipSpaces(s) == [] ==> StrChars(s) == (s, [])
  {
    if s != [] && IsSpace(s[0]) {
      LexSpace(s);
      CharsSpaces(s[1..]);
      assert s == [s[0]] + s[1..];
    } else {
      NoSpace(s);
    }
  }

  lemma {:induction false} CharsConsume(s: seq<byte>)
    requires s != []
    ensures |StrChars(s).1| < |s|
  {
    hide Escape;
  }

  lemma {:induction false} ScanRest(s: seq<byte>)
    ensures |ScanStr(s).rest| <= |StrChars(s).1|
    decreases |s|
  {
    hide StrChars, SkipSpaces;
    var next := SkipSpaces(StrChars(s).1);
    if next != [] && next[0] == QUOTE {
      ScanRest(next[1..]);
    }
  }

  /** If reading went on behind the printed literal, it took more than the white space there, or nothing
      but white space. */
  lemma ReadOn(rest: seq<byte>)
    requires EndsString(rest)
    ensures SkipSpaces(rest) != [] ==> |ScanStr(rest).rest| < |SkipSpaces(rest)|
    ensures SkipSpaces(rest) == [] ==> ScanStr(rest) == Pos(Str(rest), [])
    ensures SkipSpaces(rest) == [] ==> QuoteFree(rest)
  {
    hide StrChars;
    CharsSpaces(rest);
    if SkipSpaces(rest) != [] {
      CharsConsume(SkipSpaces(rest));
      ScanRest(rest);
    }
  }

  predicate QuoteFree(s: seq<byte>) {
    forall i :: 0 <= i < |s| ==> s[i] != QUOTE
  }

  /** A backslash in front of a quote hides the backslash that was to protect the quote, which then closes
      the literal. */
  lemma QuoteBehind(t: seq<byte>, p: seq<byte>, rest: seq<byte>)
    requires EndsString(rest) && |t| > 1 && t[0] == BACKSLASH && t[1] == QUOTE
    ensures ScanStr(Body(t, rest)) != Pos(Str(p + t), SkipSpaces(rest))
  {
    hide ScanStr, SkipSpaces, StrChars, EndsString;
    var y, z := Body(t, rest), Body(t[2..], rest);
    BodyFront(t, rest);
    BodyFront(t[1..], rest);
    assert t[1..][1..] == t[2..];
    var w := [QUOTE] + z;
    assert y == [BACKSLASH, BACKSLASH] + w;
    DoubleBackslash(y, w);
    QuoteCloses(w, z);
    assert StrChars(y).0 == [BACKSLASH];
    ClosedHere(y, z, BACKSLASH);
    assert (p + t)[|p| + 1] == QUOTE;
    if SkipSpaces(z) != [] && SkipSpaces(z)[0] == QUOTE {
      QuoteAfterSpaces(t[2..], rest);
      ReadOn(rest);
      if SkipSpaces(rest) == [] {
        OneInFront(rest, p + t, |p| + 1);
      }
    }
  }

  lemma OneInFront(rest: seq<byte>, s: seq<byte>, i: nat)
    requires QuoteFree(rest) && i < |s| && s[i] == QUOTE
    ensures s != [BACKSLASH] + rest
  {
  }

  /** The first k characters of t, printed, are read as `out`. */
  ghost predicate Reads(t: seq<byte>, k: nat, out: seq<byte>, rest: seq<byte>) {
    && k <= |t|
    && ScanStr(Body(t, rest))
       == Pos(Str(out + ScanStr(Body(t[k..], rest)).tok.s), ScanStr(Body(t[k..], rest)).rest)
  }

  lemma EscapeReads(t: seq<byte>, k: nat, c: byte, n: nat, rest: seq<byte>)
    requires k <= |t| && t != [] && t[0] == BACKSLASH
    requires Escape(Body(t, rest)) == (c, n) && n <= |Body(t, rest)| && Body(t, rest)[n..] == Body(t[k..], rest)
    ensures Reads(t, k, [c], rest)
  {
    hide Escape;
    BodyFront(t, rest);
    ScanFront(Body(t, rest), Body(t[k..], rest), c);
  }

  /** Printable characters other than the quote are printed as they are. */
  lemma PlainBody(t: seq<byte>, rest: seq<byte>)
    requires t != [] && IsPrint(t[0]) && t[0] != QUOTE
    ensures Body(t, rest) == [t[0]] + Body(t[1..], rest)
  {
    BodyFront(t, rest);
  }

  /** A hexadecimal or octal digit in the text is a character of the string. */
  lemma DigitFront(t: seq<byte>, rest: seq<byte>)
    ensures Body(t, rest) != []
    ensures IsHex(Body(t, rest)[0]) ==> t != [] && t[0] == Body(t, rest)[0] && IsPrint(t[0]) && t[0] != QUOTE
  {
    if t != [] {
      BodyFront(t, rest);
    } else {
      assert Body(t, rest) == [QUOTE] + rest;
    }
  }

  lemma {:induction false} SpanIs(p: byte -> bool, s: seq<byte>, n: nat)
    requires n <= |s| && (forall i :: 0 <= i < n ==> p(s[i])) && (n < |s| ==> !p(s[n]))
    ensures Span(p, s) == n
  {
    if n > 0 {
      SpanIs(p, s[1..], n - 1);
    }
  }

  /** What the lexer makes of a backslash, if no quote follows it. */
  lemma BackslashReads(t: seq<byte>, rest: seq<byte>) returns (k: nat, out: seq<byte>)
    requires |t| > 1 && t[0] == BACKSLASH && t[1] != QUOTE
    ensures 0 < k <= |t| && Reads(t, k, out, rest) && QuoteFree(t[..k])
    ensures |out| == 1 || |out| == 4
    ensures |out| == 1 && k == 1 ==> out[0] != BACKSLASH
    ensures |out| == 4 ==>
              && k == 2 && !IsPrint(t[1]) && out[0] == BACKSLASH && out[1] == LOWER_X
              && out[2] != BACKSLASH && out[3] != BACKSLASH
  {
    hide Escape, Body, Reads, ScanStr;
    if !IsPrint(t[1]) {
      out := HiddenEscape(t, rest);
      k := 2;
    } else if SimpleEscape(t[1]) >= 0 {
      SimpleReads(t, rest);
      k, out := 2, [SimpleEscape(t[1])];
    } else if t[1] == LOWER_X {
      k, out := HexReads(t, rest);
    } else if IsOctal(t[1]) {
      k, out := OctalReads(t, rest);
    } else {
      OtherReads(t, rest);
      k, out := 1, [t[1]];
    }
  }

  /** A backslash in front of an escaped character: the two backslashes are read as one, the rest of the
      escape as it stands. */
  lemma HiddenEscape(t: seq<byte>, rest: seq<byte>) returns (out: seq<byte>)
    requires |t| > 1 && t[0] == BACKSLASH && !IsPrint(t[1])
    ensures Reads(t, 2, out, rest) && |out| == 4 && out[0] == BACKSLASH && out[1] == LOWER_X
    ensures out[2] != BACKSLASH && out[3] != BACKSLASH
  {
    hide Escape, Body, StrChars, ScanStr, HexDigit;
    var z := Body(t[2..], rest);
    var a, b := HiddenText(t, rest);
    var y3 := [b] + z;
    var y2 := [a] + y3;
    var y1 := [LOWER_X] + y2;
    DoubleReads(Body(t, rest), y1);
    PlainReads(y1, y2, LOWER_X);
    PlainReads(y2, y3, a);
    PlainReads(y3, z, b);
    out := [BACKSLASH, LOWER_X, a, b];
    FourInFront(a, b, ScanStr(z).tok.s);
  }

  lemma FourInFront(a: byte, b: byte, r: seq<byte>)
    ensures [BACKSLASH] + ([LOWER_X] + ([a] + ([b] + r))) == [BACKSLASH, LOWER_X, a, b] + r
  {
  }

  lemma HiddenText(t: seq<byte>, rest: seq<byte>) returns (a: byte, b: byte)
    requires |t| > 1 && t[0] == BACKSLASH && !IsPrint(t[1])
    ensures Body(t, rest) == [BACKSLASH, BACKSLASH] + ([LOWER_X] + ([a] + ([b] + Body(t[2..], rest))))
    ensures a != BACKSLASH && a != QUOTE && b != BACKSLASH && b != QUOTE
  {
    hide Body;
    BodyFront(t, rest);
    BodyFront(t[1..], rest);
    assert t[1..][1..] == t[2..];
    a, b := HexDigit(t[1] / 16), HexDigit(t[1] % 16);
  }

  lemma DoubleReads(y: seq<byte>, z: seq<byte>)
    requires y == [BACKSLASH, BACKSLASH] + z
    ensures ScanStr(y) == Pos(Str([BACKSLASH] + ScanStr(z).tok.s), ScanStr(z).rest)
  {
    assert y[2..] == z && Escape(y) == (BACKSLASH, 2);
    ScanFront(y, z, BACKSLASH);
  }

  lemma PlainReads(y: seq<byte>, z: seq<byte>, c: byte)
    requires y == [c] + z && c != BACKSLASH && c != QUOTE
    ensures ScanStr(y) == Pos(Str([c] + ScanStr(z).tok.s), ScanStr(z).rest)
  {
    assert y[1..] == z;
    ScanFront(y, z, c);
  }

  lemma SimpleReads(t: seq<byte>, rest: seq<byte>)
    requires |t| > 1 && t[0] == BACKSLASH && t[1] != QUOTE && SimpleEscape(t[1]) >= 0
    ensures Reads(t, 2, [SimpleEscape(t[1])], rest)
  {
    hide Body;
    PlainBody(t, rest);
    PlainBody(t[1..], rest);
    assert t[1..][1..] == t[2..];
    var y := Body(t, rest);
    assert y[2..] == Body(t[2..], rest);
    EscapeReads(t, 2, SimpleEscape(t[1]), 2, rest);
  }

  lemma OtherReads(t: seq<byte>, rest: seq<byte>)
    requires |t| > 1 && t[0] == BACKSLASH && t[1] != QUOTE && IsPrint(t[1])
    requires SimpleEscape(t[1]) < 0 && t[1] != LOWER_X && !IsOctal(t[1])
    ensures Reads(t, 1, [t[1]], rest)
  {
    hide Body, Value;
    PlainBody(t, rest);
    PlainBody(t[1..], rest);
    var y := Body(t, rest);
    assert y[1..] == Body(t[1..], rest);
    EscapeReads(t, 1, t[1], 1, rest);
  }

  /** Up to two hexadecimal digits behind the x; if there are none, what follows is delivered and read
      again. */
  lemma HexReads(t: seq<byte>, rest: seq<byte>) returns (k: nat, out: seq<byte>)
    requires |t| > 1 && t[0] == BACKSLASH && t[1] == LOWER_X
    ensures 2 <= k <= |t| && Reads(t, k, out, rest) && |out| == 1 && QuoteFree(t[..k])
  {
    hide Body, Reads;
    PlainBody(t, rest);
    PlainBody(t[1..], rest);
    assert t[1..][1..] == t[2..];
    var y, z := Body(t, rest), Body(t[2..], rest);
    assert y == [BACKSLASH, LOWER_X] + z;
    DigitFront(t[2..], rest);
    if !IsHex(z[0]) {
      assert y[2..] == z && y[2] == z[0] && Escape(y) == (z[0], 2);
      EscapeReads(t, 2, z[0], 2, rest);
      k, out := 2, [z[0]];
    } else {
      PlainBody(t[2..], rest);
      assert t[2..][1..] == t[3..];
      var z1 := Body(t[3..], rest);
      DigitFront(t[3..], rest);
      assert y[2] == z[0] && y[3] == z1[0] && y[3..] == z1;
      if !IsHex(z1[0]) {
        k := 3;
      } else {
        PlainBody(t[3..], rest);
        assert t[3..][1..] == t[4..];
        assert y[4..] == Body(t[4..], rest);
        k := 4;
      }
      assert Escape(y).1 == k;
      EscapeReads(t, k, Escape(y).0, k, rest);
      out := [Escape(y).0];
    }
  }

  /** Octal digits at the front of a text are characters of the string. */
  lemma {:induction false} OctalFront(t: seq<byte>, rest: seq<byte>, m: nat) returns (n: nat)
    ensures n <= m && n <= |t| && n <= |Body(t, rest)|
    ensures Body(t, rest)[..n] == t[..n] && Body(t, rest)[n..] == Body(t[n..], rest)
    ensures (forall i :: 0 <= i < n ==> IsOctal(t[i]))
    ensures n < m ==> n < |Body(t, rest)| && !IsOctal(Body(t, rest)[n])
    decreases m
  {
    hide Body;
    DigitFront(t, rest);
    if m == 0 || !IsOctal(Body(t, rest)[0]) {
      n := 0;
      assert t[0..] == t;
    } else {
      PlainBody(t, rest);
      var j := OctalFront(t[1..], rest, m - 1);
      n := 1 + j;
      assert t[1..][j..] == t[n..] && t[..n] == [t[0]] + t[1..][..j];
    }
  }

  lemma OctalReads(t: seq<byte>, rest: seq<byte>) returns (k: nat, out: seq<byte>)
    requires |t| > 1 && t[0] == BACKSLASH && IsOctal(t[1])
    ensures 2 <= k <= |t| && Reads(t, k, out, rest) && |out| == 1 && QuoteFree(t[..k])
  {
    hide Body, Reads, Value, Span;
    PlainBody(t, rest);
    PlainBody(t[1..], rest);
    var y, z := Body(t, rest), Body(t[1..], rest);
    assert y == [BACKSLASH] + z;
    var n := OctalFront(t[1..], rest, 3);
    assert z[..n] == t[1..][..n];
    var front := if |y| > 4 then y[1..4] else y[1..];
    assert front == if |z| > 3 then z[..3] else z;
    SpanIs(IsOctal, front, n);
    k := 1 + n;
    assert t[1..][n..] == t[k..];
    assert y[k..] == z[n..];
    assert Escape(y).1 == k;
    out := [Escape(y).0];
    EscapeReads(t, k, out[0], k, rest);
    assert forall i :: 1 <= i < k ==> t[i] == t[1..][i - 1];
  }

  /** A string never comes back with something in front of it, nor does one that begins with a backslash. */
  lemma {:induction false} Padded(t: seq<byte>, p: seq<byte>, rest: seq<byte>)
    requires EndsString(rest) && QuoteFree(p) && (p != [] || (t != [] && t[0] == BACKSLASH))
    ensures ScanStr(Body(t, rest)) != Pos(Str(p + t), SkipSpaces(rest))
    decreases |t|, 1
  {
    hide ScanStr, SkipSpaces, Body, Misread, NoLiteral;
    if t == [] {
      ReadNothing(rest);
    } else if t[0] != BACKSLASH {
      ReadFront(t[0], t[1..], rest);
      assert t == [t[0]] + t[1..];
      PaddedStep(t, p, rest, 1, [if IsPrint(t[0]) then t[0] else Misread(t[0])]);
    } else if |t| == 1 {
      LastBackslash(t, rest);
      assert (p + t)[0] != QUOTE;
    } else if t[1] == QUOTE {
      QuoteBehind(t, p, rest);
    } else {
      var k, out := BackslashReads(t, rest);
      PaddedStep(t, p, rest, k, out);
    }
  }

  /** What was read first belongs to the padding and the front of the string; something is left over. */
  lemma {:induction false} PaddedStep(t: seq<byte>, p: seq<byte>, rest: seq<byte>, k: nat, out: seq<byte>)
    requires EndsString(rest) && QuoteFree(p) && 0 < k <= |t| && Reads(t, k, out, rest)
    requires p != [] || (t[0] == BACKSLASH && (|out| == 1 && k == 1 ==> out[0] != BACKSLASH))
    requires t[0] == QUOTE ==> k == 1 && out == [QUOTE]
    requires t[0] != QUOTE ==> QuoteFree(t[..k])
    requires |out| == 1
          || (|out| == 4 && k == 2 && t[0] == BACKSLASH && !IsPrint(t[1]) && out[0] == BACKSLASH && out[1] == LOWER_X
              && out[2] != BACKSLASH && out[3] != BACKSLASH)
    ensures ScanStr(Body(t, rest)) != Pos(Str(p + t), SkipSpaces(rest))
    decreases |t|, 0
  {
    hide ScanStr, SkipSpaces, Body, NoLiteral, EndsString;
    var r := ScanStr(Body(t[k..], rest)).tok.s;
    if p + t == out + r {
      FrontFits(p, t, k, out, r);
      Unpad(p, t, k, out, r);
      Padded(t[k..], (p + t[..k])[|out|..], rest);
    }
  }

  /** The first characters agree only if there is more padding than was read. */
  lemma FrontFits(p: seq<byte>, t: seq<byte>, k: nat, out: seq<byte>, r: seq<byte>)
    requires QuoteFree(p) && 0 < k <= |t| && p + t == out + r
    requires p != [] || (t[0] == BACKSLASH && (|out| == 1 && k == 1 ==> out[0] != BACKSLASH))
    requires t[0] == QUOTE ==> k == 1 && out == [QUOTE]
    requires t[0] != QUOTE ==> QuoteFree(t[..k])
    requires |out| == 1
          || (|out| == 4 && k == 2 && t[0] == BACKSLASH && !IsPrint(t[1]) && out[0] == BACKSLASH && out[1] == LOWER_X
              && out[2] != BACKSLASH && out[3] != BACKSLASH)
    ensures |p| + k > |out| && QuoteFree((p + t[..k])[|out|..])
  {
    var s := p + t;
    assert s[|p|] == t[0];
    assert forall i :: 0 <= i < |out| ==> s[i] == out[i];
    if |out| == 1 {
      assert s[0] == out[0];
      assert p != [] ==> s[0] == p[0];
    } else {
      assert s[|p| + 1] == t[1];
      assert s[0] == out[0] && s[1] == out[1] && s[2] == out[2] && s[3] == out[3];
    }
  }

  lemma LastBackslash(t: seq<byte>, rest: seq<byte>)
    requires t == [BACKSLASH]
    ensures ScanStr(Body(t, rest)).tok.s != [] && ScanStr(Body(t, rest)).tok.s[0] == QUOTE
  {
    var y := Body(t, rest);
    BodyFront(t, rest);
    assert Body(t[1..], rest) == [QUOTE] + rest;
    assert y == [BACKSLASH, QUOTE] + rest && y[2..] == rest && Escape(y) == (QUOTE, 2);
    ScanFront(y, rest, QUOTE);
  }

  /** Dropping the same characters in front of both sides. */
  lemma Unpad(p: seq<byte>, t: seq<byte>, k: nat, out: seq<byte>, r: seq<byte>)
    requires k <= |t| && |out| <= |p| + k && p + t == out + r
    ensures r == (p + t[..k])[|out|..] + t[k..]
  {
    assert p + t == (p + t[..k]) + t[k..];
    assert r == (p + t)[|out|..];
  }

  /** Exactly the strings of safe bytes survive printing and reading. */
  lemma StringSurvivesIff(s: seq<byte>, rest: seq<byte>)
    requires EndsString(rest)
    ensures ScanStr(Body(s, rest)) == Pos(Str(s), SkipSpaces(rest)) <==> Safe(s)
  {
    hide ScanStr, SkipSpaces, Body, Safe, EndsString;
    if Safe(s) {
      assert NoLiteral(rest) by { EndsNoLiteral(rest); }
      SafeRoundTrip(s, rest);
    } else {
      UnsafeDiffers(s, rest);
    }
  }

  lemma EndsNoLiteral(rest: seq<byte>)
    requires EndsString(rest)
    ensures NoLiteral(rest)
  {
  }

  lemma {:induction false} UnsafeDiffers(s: seq<byte>, rest: seq<byte>)
    requires EndsString(rest) && !Safe(s)
    ensures ScanStr(Body(s, rest)) != Pos(Str(s), SkipSpaces(rest))
  {
    hide ScanStr, SkipSpaces, Body, EndsString, Misread;
    assert s == [s[0]] + s[1..];
    if s[0] == BACKSLASH {
      assert [] + s == s;
      Padded(s, [], rest);
    } else {
      ReadFront(s[0], s[1..], rest);
      MisreadIff(s[0]);
      if SafeByte(s[0]) {
        UnsafeDiffers(s[1..], rest);
        var r := ScanStr(Body(s[1..], rest)).tok.s;
        assert ([s[0]] + r)[1..] == r;
      }
    }
  }

  /** What does not survive: a backslash and an n are printed as they are and read back as a line feed, and
      the byte 31 is printed as \x1f and reads back as an F. */
  lemma EscapesLost(t: seq<byte>, u: seq<byte>, rest: seq<byte>)
    requires t == [BACKSLASH, 110] && u == [31] && rest == [10]
    ensures Read(t, rest) == [10] && Read(u, rest) == [70]
  {
    hide ScanStr, SkipSpaces, StrChars, Escape, NoLiteral;
    assert EscapeAll(t) == t by {
      var n := t[1..];
      assert EscapeByte(t[0]) == [BACKSLASH] && EscapeByte(n[0]) == [110] && n[1..] == [];
      assert EscapeAll(n) == [110];
    }
    var e := [BACKSLASH, LOWER_X, 49, 102];
    assert EscapeAll(u) == e by {
      assert EscapeByte(u[0]) == e && u[1..] == [];
    }
    assert t + [QUOTE] + rest == [BACKSLASH, 110, QUOTE, 10];
    LetterN(t + [QUOTE] + rest);
    OneEscape(t, 10, rest);
    assert e + [QUOTE] + rest == [BACKSLASH, LOWER_X, 49, 102, QUOTE, 10];
    Digits1F(e + [QUOTE] + rest);
    OneEscape(e, 70, rest);
  }

  lemma LetterN(s: seq<byte>)
    requires s == [BACKSLASH, 110, QUOTE, 10]
    ensures Escape(s) == (10, 2)
  {
  }

  lemma Digits1F(s: seq<byte>)
    requires s == [BACKSLASH, LOWER_X, 49, 102, QUOTE, 10]
    ensures Escape(s) == (70, 4)
  {
    assert IsHex(s[2]) && IsHex(s[3]);
  }

  /** A literal of one escape sequence. */
  lemma OneEscape(e: seq<byte>, c: byte, rest: seq<byte>)
    requires e != [] && e[0] == BACKSLASH && Escape(e + [QUOTE] + rest) == (c, |e|) && rest == [10]
    ensures ScanStr(e + [QUOTE] + rest).tok == Str([c])
  {
    hide Escape, ScanStr, SkipSpaces, StrChars, NoLiteral;
    var s, z := e + [QUOTE] + rest, Body([], rest);
    assert s[|e|..] == z;
    EscapeFirst(s, c, |e|);
    ScanFront(s, z, c);
    LineFeed(rest);
    SafeRoundTrip([], rest);
  }

  lemma EscapeFirst(s: seq<byte>, c: byte, n: nat)
    requires s != [] && s[0] == BACKSLASH && Escape(s) == (c, n)
    ensures n <= |s| && StrChars(s) == ([c] + StrChars(s[n..]).0, StrChars(s[n..]).1)
  {
    hide Escape;
  }

  lemma LineFeed(rest: seq<byte>)
    requires rest == [10]
    ensures NoLiteral(rest)
  {
    assert SkipSpaces(rest[1..]) == [];
  }
}
