/** The lexical grammar, form by form (lib/token.c): what each way of writing a number, an escape sequence, a
    comment or a name reads as, told without the lexer's own functions. */
module Lexemes {
  import opened Bytes
  import opened Lexer
  import T = Tokens

  const LOWER := "0123456789abcdef"
  const UPPER := "0123456789ABCDEF"

  // ---------------------------------------------------------------- characters

  /** The classes of characters that matter to the lexer. */
  lemma Classes(c: byte)
    ensures IsSpace(c) <==> c == ' ' as int || '\t' as int <= c <= '\r' as int
    ensures IsDigit(c) <==> '0' as int <= c <= '9' as int
    ensures IsOctal(c) <==> '0' as int <= c <= '7' as int
    ensures IsHex(c) <==>
              '0' as int <= c <= '9' as int || 'a' as int <= c <= 'f' as int || 'A' as int <= c <= 'F' as int
    ensures IsIdentStart(c) <==>
              'a' as int <= c <= 'z' as int || 'A' as int <= c <= 'Z' as int || c == '_' as int
    ensures IsIdentChar(c) <==> IsIdentStart(c) || '0' as int <= c <= '9' as int
    ensures IsPrint(c) <==> ' ' as int <= c <= '~' as int
  {
  }

  // ---------------------------------------------------------------- numbers

  /** The digits of a number, the most significant first, written with lower or upper case letters. */
  predicate Spells(s: seq<byte>, ds: seq<nat>, base: nat) {
    && |s| == |ds| && base <= 16
    && forall i :: 0 <= i < |s| ==> Spell(s[i], ds[i], base)
  }

  predicate Spell(c: byte, d: nat, base: nat) {
    d < base && d < 16 && (c == LOWER[d] as int || c == UPPER[d] as int)
  }

  function Horner(ds: seq<nat>, base: nat): nat {
    if ds == [] then 0 else Horner(ds[..|ds| - 1], base) * base + ds[|ds| - 1]
  }

  /** The 64-bit word that a number is delivered as, read as signed. */
  function Word(neg: bool, v: nat): int {
    if neg then (if v <= 9223372036854775808 then 0 - v else -9223372036854775808)
    else if v <= 9223372036854775807 then v
    else if v <= 18446744073709551615 then v - 18446744073709551616
    else -1
  }

  function Sign(neg: bool): seq<byte> {
    if neg then Ascii("-") else []
  }

  lemma DigitSpelled(c: byte, d: nat, base: nat)
    requires Spell(c, d, base)
    ensures DigitValue(c) == d && IsHex(c) && (base <= 10 ==> IsDigit(c)) && (base <= 8 ==> IsOctal(c))
    ensures c == 48 <==> d == 0
  {
    assert LOWER[d] as int == if d < 10 then 48 + d else 87 + d;
    assert UPPER[d] as int == if d < 10 then 48 + d else 55 + d;
  }

  lemma {:induction false} SpelledValue(s: seq<byte>, ds: seq<nat>, base: nat)
    requires Spells(s, ds, base)
    ensures Value(s, base) == Horner(ds, base)
  {
    hide DigitValue, Spell;
    if s != [] {
      var n := |s| - 1;
      DigitSpelled(s[n], ds[n], base);
      SpelledValue(s[..n], ds[..n], base);
    }
  }

  lemma SpelledClass(s: seq<byte>, ds: seq<nat>, base: nat)
    requires Spells(s, ds, base)
    ensures forall i :: 0 <= i < |s| ==>
              IsHex(s[i]) && (base <= 10 ==> IsDigit(s[i])) && (base <= 8 ==> IsOctal(s[i]))
  {
    hide Spell, IsHex, IsDigit, IsOctal;
    forall i | 0 <= i < |s|
      ensures IsHex(s[i]) && (base <= 10 ==> IsDigit(s[i])) && (base <= 8 ==> IsOctal(s[i]))
    {
      DigitSpelled(s[i], ds[i], base);
    }
  }

  lemma WordIs(neg: bool, v: nat)
    ensures IntToken(neg, v) == Int(Word(neg, v))
  {
  }

  /** The scanner takes digits d behind an optional sign. */
  lemma SignedNumber(neg: bool, d: seq<byte>)
    requires d != [] && IsDigit(d[0])
    ensures Lex(Sign(neg) + d) == ScanNum(Sign(neg) + d)
    ensures var t := Sign(neg) + d;
            t != [] && (t[0] == MINUS <==> neg) && (neg ==> |t| > 1 && t[1..] == d) && (!neg ==> t == d)
  {
    hide ScanNum;
    var t := Sign(neg) + d;
    assert Ascii("-") == [MINUS];
    T.LexNumber(t);
  }

  /** Hexadecimal numbers, in any mixture of cases. */
  lemma HexNumber(neg: bool, x: byte, s: seq<byte>, ds: seq<nat>, rest: seq<byte>)
    requires x == 'x' as int || x == 'X' as int
    requires Spells(s, ds, 16) && (rest == [] || !IsHex(rest[0]))
    ensures Lex(Sign(neg) + (Ascii("0") + [x] + s + rest)) == Pos(Int(Word(neg, Horner(ds, 16))), rest)
  {
    hide IntToken, Value, Span, Horner, Spells, Word, IsHex, Lex, Sign;
    var d := Ascii("0") + [x] + s + rest;
    assert Ascii("0") == [ZERO];
    assert d[2..] == s + rest && d[0] == ZERO && d[1] == x;
    SignedNumber(neg, d);
    SpelledClass(s, ds, 16);
    T.SpanPrefix(IsHex, s, rest);
    SpelledValue(s, ds, 16);
    WordIs(neg, Horner(ds, 16));
    assert d[2..2 + |s|] == s && d[2 + |s|..] == rest;
  }

  /** Octal numbers. */
  lemma OctalNumber(neg: bool, s: seq<byte>, ds: seq<nat>, rest: seq<byte>)
    requires s != [] && Spells(s, ds, 8) && (rest == [] || !IsOctal(rest[0]))
    ensures Lex(Sign(neg) + (Ascii("0") + s + rest)) == Pos(Int(Word(neg, Horner(ds, 8))), rest)
  {
    hide IntToken, Value, Span, Horner, Spells, Word, Lex, Sign;
    var d := Ascii("0") + s + rest;
    assert Ascii("0") == [ZERO];
    assert d[1..] == s + rest && d[0] == ZERO && d[1] == s[0];
    SpelledClass(s, ds, 8);
    SignedNumber(neg, d);
    T.SpanPrefix(IsOctal, s, rest);
    SpelledValue(s, ds, 8);
    WordIs(neg, Horner(ds, 8));
    assert d[1..1 + |s|] == s && d[1 + |s|..] == rest;
  }

  /** Decimal numbers have no leading zeros. */
  predicate PlainDecimal(s: seq<byte>) {
    s != [] && (s[0] == '0' as int ==> |s| == 1)
  }

  /** Nothing that could continue a decimal number. */
  predicate EndsDecimal(rest: seq<byte>) {
    rest == [] || (!IsIdentChar(rest[0]) && rest[0] != '.' as int)
  }

  lemma DecimalNumber(neg: bool, s: seq<byte>, ds: seq<nat>, rest: seq<byte>)
    requires Spells(s, ds, 10) && PlainDecimal(s) && EndsDecimal(rest)
    ensures Lex(Sign(neg) + (s + rest)) == Pos(Int(Word(neg, Horner(ds, 10))), rest)
  {
    hide IntToken, Value, Span, Horner, Spells, Word, Lex, Sign, IsDigit, IsOctal, ScanNum, FloatTail;
    hide PlainDecimal, EndsDecimal, IsHex;
    SpelledClass(s, ds, 10);
    DecimalSpan(s, rest);
    SignedNumber(neg, s + rest);
    SpelledValue(s, ds, 10);
    WordIs(neg, Horner(ds, 10));
    ScanDecimal(Sign(neg) + (s + rest), neg, s + rest, |s|);
  }

  lemma DecimalSpan(s: seq<byte>, rest: seq<byte>)
    requires (forall i :: 0 <= i < |s| ==> IsDigit(s[i])) && PlainDecimal(s) && EndsDecimal(rest)
    ensures var d := s + rest;
            && d != [] && IsDigit(d[0]) && d[..|s|] == s && d[|s|..] == rest && FloatTail(d[|s|..]) == 0
            && |s| == (if d[0] == ZERO then 1 else 1 + Span(IsDigit, d[1..]))
            && (d[0] == ZERO && |d| > 1 ==> d[1] != LOWER_X && d[1] != 88 && !IsOctal(d[1]))
  {
    hide Span, IsDigit, IsOctal, FloatTail, EndsDecimal;
    var d := s + rest;
    assert d[1..] == s[1..] + rest && d[0] == s[0];
    NotDigit(rest);
    NoFraction(rest);
    T.SpanPrefix(IsDigit, s[1..], rest);
    assert |s| == 1 && |d| > 1 ==> d[1] == rest[0];
  }

  lemma NotDigit(rest: seq<byte>)
    requires EndsDecimal(rest)
    ensures rest != [] ==> !IsDigit(rest[0]) && !IsOctal(rest[0]) && rest[0] != LOWER_X && rest[0] != 88
  {
  }

  lemma ScanDecimal(t: seq<byte>, neg: bool, d: seq<byte>, n: nat)
    requires t != [] && d != [] && (t[0] == MINUS <==> neg) && (neg ==> |t| > 1 && t[1..] == d) && (!neg ==> t == d)
    requires d[0] == ZERO && |d| > 1 ==> d[1] != LOWER_X && d[1] != 88 && !IsOctal(d[1])
    requires n == (if d[0] == ZERO then 1 else 1 + Span(IsDigit, d[1..])) && FloatTail(d[n..]) == 0
    ensures ScanNum(t) == Pos(IntToken(neg, Value(d[..n], 10)), d[n..])
  {
    hide IntToken, Value, Span, FloatTail, IsOctal;
  }

  lemma NoFraction(rest: seq<byte>)
    requires EndsDecimal(rest)
    ensures FloatTail(rest) == 0
  {
  }

  // ---------------------------------------------------------------- every number has a spelling

  function DigitsOf(v: nat, base: nat): (ds: seq<nat>)
    requires base >= 2
    ensures ds != [] && forall i :: 0 <= i < |ds| ==> ds[i] < base
  {
    if v < base then [v] else Smaller(v, base); DigitsOf(v / base, base) + [v % base]
  }

  lemma Smaller(v: nat, base: nat)
    requires v >= base >= 2
    ensures 0 <= v / base < v && v % base < base
  {
  }

  lemma {:induction false} DigitsValue(v: nat, base: nat)
    requires base >= 2
    ensures Horner(DigitsOf(v, base), base) == v
    decreases v
  {
    if v < base {
      assert Horner([], base) == 0 && [v][..0] == [];
    } else {
      Smaller(v, base);
      DigitsValue(v / base, base);
      HornerSnoc(DigitsOf(v / base, base), v % base, base);
      QuotientRest(v, base);
    }
  }

  lemma QuotientRest(v: nat, base: nat)
    requires base > 0
    ensures (v / base) * base + v % base == v
  {
  }

  lemma HornerSnoc(ds: seq<nat>, d: nat, base: nat)
    ensures Horner(ds + [d], base) == Horner(ds, base) * base + d
  {
    assert (ds + [d])[..|ds|] == ds;
  }

  /** The digits written with the given letters. */
  function Written(ds: seq<nat>, letters: string): (s: seq<byte>)
    requires forall i :: 0 <= i < |ds| ==> ds[i] < |letters|
  {
    seq(|ds|, i requires 0 <= i < |ds| => letters[ds[i]] as int % 256)
  }

  /** Every 64-bit word, written in hexadecimal digits of either case, or in octal, reads back. */
  lemma BasesRoundTrip(v: nat, letters: string, rest: seq<byte>)
    requires v <= 18446744073709551615 && (letters == LOWER || letters == UPPER)
    requires rest == [] || IsSpace(rest[0])
    ensures var word := if v <= 9223372036854775807 then v else v - 18446744073709551616;
            && Lex(Ascii("0x") + Written(DigitsOf(v, 16), letters) + rest) == Pos(Int(word), rest)
            && Lex(Ascii("0") + Written(DigitsOf(v, 8), letters) + rest) == Pos(Int(word), rest)
  {
    hide Lex, DigitsOf, Spells, Written, Horner;
    WrittenSpells(DigitsOf(v, 16), letters, 16);
    WrittenSpells(DigitsOf(v, 8), letters, 8);
    DigitsValue(v, 16);
    DigitsValue(v, 8);
    WrittenReads(Written(DigitsOf(v, 16), letters), DigitsOf(v, 16), rest);
    OctalNumber(false, Written(DigitsOf(v, 8), letters), DigitsOf(v, 8), rest);
    NoSign(Ascii("0") + Written(DigitsOf(v, 8), letters) + rest);
  }

  lemma NoSign(s: seq<byte>)
    ensures Sign(false) + s == s
  {
  }

  lemma WrittenReads(s: seq<byte>, ds: seq<nat>, rest: seq<byte>)
    requires Spells(s, ds, 16) && (rest == [] || IsSpace(rest[0]))
    ensures Lex(Ascii("0x") + s + rest) == Pos(Int(Word(false, Horner(ds, 16))), rest)
  {
    hide Lex, Spells, Horner, Word;
    HexNumber(false, 'x' as int, s, ds, rest);
    var t := Ascii("0") + ['x' as int] + s + rest;
    NoSign(t);
    assert Ascii("0x") == Ascii("0") + ['x' as int];
  }

  lemma WrittenSpells(ds: seq<nat>, letters: string, base: nat)
    requires base <= 16 && (letters == LOWER || letters == UPPER) && forall i :: 0 <= i < |ds| ==> ds[i] < base
    ensures Spells(Written(ds, letters), ds, base)
  {
    forall i | 0 <= i < |ds|
      ensures Spell(Written(ds, letters)[i], ds[i], base)
    {
      var d := ds[i];
      assert LOWER[d] as int == if d < 10 then 48 + d else 87 + d;
      assert UPPER[d] as int == if d < 10 then 48 + d else 55 + d;
    }
  }

  // ---------------------------------------------------------------- numbers with a fraction or an exponent

  predicate Digits(s: seq<byte>) {
    forall i :: 0 <= i < |s| ==> IsDigit(s[i])
  }

  predicate IsFraction(f: seq<byte>) {
    f == [] || (f[0] == '.' as int && Digits(f[1..]))
  }

  predicate IsExponent(e: seq<byte>) {
    e == []
    || ((e[0] == 'e' as int || e[0] == 'E' as int)
        && if |e| > 1 && (e[1] == '+' as int || e[1] == '-' as int) then Digits(e[2..]) else Digits(e[1..]))
  }

  lemma FractionSpan(f: seq<byte>, more: seq<byte>)
    requires IsFraction(f) && (more == [] || (!IsDigit(more[0]) && more[0] != DOT))
    ensures Fraction(f + more) == |f|
  {
    hide Span, IsDigit;
    if f == [] {
      assert f + more == more;
    } else {
      assert (f + more)[1..] == f[1..] + more;
      T.SpanPrefix(IsDigit, f[1..], more);
    }
  }

  lemma ExponentSpan(e: seq<byte>, rest: seq<byte>)
    requires IsExponent(e) && EndsDecimal(rest)
    ensures rest == [] || (rest[0] != 43 && rest[0] != MINUS) ==> Exponent(e + rest) == |e|
  {
    hide Span, IsDigit;
    NotDigit(rest);
    var s := e + rest;
    if e == [] {
      assert s == rest;
      NoExponent(rest);
    } else {
      var g := if |s| > 1 && (s[1] == 43 || s[1] == MINUS) then 2 else 1;
      if rest == [] || (rest[0] != 43 && rest[0] != MINUS) {
        assert g <= |e| && s[g..] == e[g..] + rest;
        T.SpanPrefix(IsDigit, e[g..], rest);
      }
    }
  }

  lemma NoExponent(rest: seq<byte>)
    requires EndsDecimal(rest)
    ensures rest != [] ==> rest[0] != 101 && rest[0] != 69
  {
  }

  /** A decimal number with a fraction, an exponent, or both is delivered as its text. */
  lemma FloatNumber(neg: bool, s: seq<byte>, f: seq<byte>, e: seq<byte>, rest: seq<byte>)
    requires Digits(s) && PlainDecimal(s) && IsFraction(f) && IsExponent(e) && f + e != []
    requires EndsDecimal(rest) && (rest == [] || (rest[0] != '+' as int && rest[0] != '-' as int))
    ensures Lex(Sign(neg) + (s + f + e + rest)) == Pos(Float(Sign(neg) + s + f + e), rest)
  {
    hide Digits, PlainDecimal, EndsDecimal, Lex, ScanNum, IsFraction, IsExponent, Sign, Span, FloatTail, IsDigit;
    var d := s + f + e + rest;
    TailSpan(s, f, e, rest, d);
    DigitsSpan(s, d);
    SignedNumber(neg, d);
    hide IsOctal;
    ScanFloat(Sign(neg) + d, neg, d, |s|, |f| + |e|);
    FloatText(Sign(neg), s, f, e, rest);
  }

  lemma DigitsSpan(s: seq<byte>, d: seq<byte>)
    requires Digits(s) && PlainDecimal(s) && s <= d && |s| < |d|
    requires var c := d[|s|..][0]; !IsDigit(c) && !IsOctal(c) && c != LOWER_X && c != 88
    ensures IsDigit(d[0]) && |s| == if d[0] == ZERO then 1 else 1 + Span(IsDigit, d[1..])
    ensures d[0] == ZERO ==> d[1] != LOWER_X && d[1] != 88 && !IsOctal(d[1])
  {
    hide Span, IsDigit, IsOctal;
    assert d[1..] == s[1..] + d[|s|..] && d[0] == s[0];
    T.SpanPrefix(IsDigit, s[1..], d[|s|..]);
  }

  lemma FloatText(sign: seq<byte>, s: seq<byte>, f: seq<byte>, e: seq<byte>, rest: seq<byte>)
    ensures var d := s + f + e + rest;
            var t := sign + d;
            && t[..|t| - |d| + |s| + (|f| + |e|)] == sign + s + f + e
            && d[|s| + (|f| + |e|)..] == rest
  {
  }

  lemma TailSpan(s: seq<byte>, f: seq<byte>, e: seq<byte>, rest: seq<byte>, d: seq<byte>)
    requires d == s + f + e + rest && IsFraction(f) && IsExponent(e) && f + e != []
    requires EndsDecimal(rest) && (rest == [] || (rest[0] != '+' as int && rest[0] != '-' as int))
    ensures var tail := d[|s|..];
            && FloatTail(tail) == |f| + |e| > 0 && tail != []
            && !IsDigit(tail[0]) && !IsOctal(tail[0]) && tail[0] != LOWER_X && tail[0] != 88
  {
    hide IsDigit, IsOctal, IsIdentChar, Fraction, Exponent, IsFraction, IsExponent;
    var tail := d[|s|..];
    assert tail == f + (e + rest) && tail[|f|..] == e + rest;
    BehindDigits(f, e, rest);
    FractionSpan(f, e + rest);
    ExponentSpan(e, rest);
    assert |f + e| > 0;
  }

  lemma BehindDigits(f: seq<byte>, e: seq<byte>, rest: seq<byte>)
    requires IsFraction(f) && IsExponent(e) && f + e != [] && EndsDecimal(rest)
    ensures var more := e + rest; more == [] || (!IsDigit(more[0]) && more[0] != DOT)
    ensures var tail := f + (e + rest);
            tail != [] && !IsDigit(tail[0]) && !IsOctal(tail[0]) && tail[0] != LOWER_X && tail[0] != 88
  {
    NotDigit(rest);
  }

  lemma ScanFloat(t: seq<byte>, neg: bool, d: seq<byte>, n: nat, m: nat)
    requires t != [] && d != [] && (t[0] == MINUS <==> neg) && (neg ==> |t| > 1 && t[1..] == d) && (!neg ==> t == d)
    requires d[0] == ZERO && |d| > 1 ==> d[1] != LOWER_X && d[1] != 88 && !IsOctal(d[1])
    requires n == (if d[0] == ZERO then 1 else 1 + Span(IsDigit, d[1..])) && FloatTail(d[n..]) == m > 0
    ensures n + m <= |d| && ScanNum(t) == Pos(Float(t[..|t| - |d| + n + m]), d[n + m..])
  {
    hide IntToken, Value, Span, FloatTail, IsOctal;
  }

  // ---------------------------------------------------------------- string literals

  /** One character of a string literal as it is written. */
  datatype Piece =
    | Plain(c: byte)
    | Simple(i: nat)
    | Octal(s: seq<byte>, ds: seq<nat>)
    | HexPair(a: byte, b: byte)

  const LETTERS := "abfnrtv\\'\""
  const CODES: seq<byte> := [7, 8, 12, 10, 13, 9, 11, 92, 39, 34]

  predicate ValidPiece(p: Piece) {
    match p
    case Plain(c) => c != QUOTE && c != BACKSLASH
    case Simple(i) => i < |CODES|
    case Octal(s, ds) => |s| == 3 && Spells(s, ds, 8)
    case HexPair(a, b) => IsHex(a) && IsHex(b)
  }

  function PieceText(p: Piece): seq<byte>
    requires ValidPiece(p)
  {
    match p
    case Plain(c) => [c]
    case Simple(i) => ['\\' as int, LETTERS[i] as int % 256]
    case Octal(s, _) => ['\\' as int] + s
    case HexPair(a, b) => ['\\' as int, 'x' as int, a, b]
  }

  /** The byte it stands for.  The lexer weighs all hexadecimal digits by their distance from '0', which is
      right for decimal digits only. */
  function PieceByte(p: Piece): byte
    requires ValidPiece(p)
  {
    match p
    case Plain(c) => c
    case Simple(i) => CODES[i]
    case Octal(_, ds) => (64 * ds[0] + 8 * ds[1] + ds[2]) % 256
    case HexPair(a, b) => (16 * (a - '0' as int) + (b - '0' as int)) % 256
  }

  function PiecesText(ps: seq<Piece>): seq<byte>
    requires forall i :: 0 <= i < |ps| ==> ValidPiece(ps[i])
  {
    if ps == [] then [] else PieceText(ps[0]) + PiecesText(ps[1..])
  }

  function PiecesBytes(ps: seq<Piece>): seq<byte>
    requires forall i :: 0 <= i < |ps| ==> ValidPiece(ps[i])
  {
    if ps == [] then [] else [PieceByte(ps[0])] + PiecesBytes(ps[1..])
  }

  lemma PieceReads(p: Piece, rest: seq<byte>)
    requires ValidPiece(p)
    ensures StrChars(PieceText(p) + rest) == ([PieceByte(p)] + StrChars(rest).0, StrChars(rest).1)
  {
    hide StrChars, Escape, IsHex, Spells;
    var s := PieceText(p) + rest;
    assert s[|PieceText(p)|..] == rest;
    match p
    case Plain(c) => PlainChar(s);
    case Simple(i) =>
      SimpleCode(i, s);
      EscapedChar(s, CODES[i], 2);
    case Octal(o, ds) =>
      OctalCode(o, ds, rest);
      EscapedChar(s, PieceByte(p), 4);
    case HexPair(a, b) =>
      HexCode(a, b, s);
      EscapedChar(s, PieceByte(p), 4);
  }

  lemma PlainChar(s: seq<byte>)
    requires s != [] && s[0] != QUOTE && s[0] != BACKSLASH
    ensures StrChars(s) == ([s[0]] + StrChars(s[1..]).0, StrChars(s[1..]).1)
  {
  }

  lemma EscapedChar(s: seq<byte>, c: byte, n: nat)
    requires s != [] && s[0] == BACKSLASH && Escape(s) == (c, n)
    ensures n <= |s| && StrChars(s) == ([c] + StrChars(s[n..]).0, StrChars(s[n..]).1)
  {
    hide Escape;
  }

  lemma SimpleCode(i: nat, s: seq<byte>)
    requires i < |CODES| && |s| >= 2 && s[0] == BACKSLASH && s[1] == LETTERS[i] as int % 256
    ensures Escape(s) == (CODES[i], 2)
  {
    hide IsHex, Span, Value;
  }

  lemma HexCode(a: byte, b: byte, s: seq<byte>)
    requires |s| >= 4 && s[..4] == [BACKSLASH, 'x' as int, a, b] && IsHex(a) && IsHex(b)
    ensures Escape(s) == ((16 * (a - 48) + (b - 48)) % 256, 4)
  {
    hide IsHex, Span, Value;
    assert s[0] == s[..4][0] && s[1] == s[..4][1] && s[2] == s[..4][2] && s[3] == s[..4][3];
  }

  lemma OctalCode(o: seq<byte>, ds: seq<nat>, rest: seq<byte>)
    requires |o| == 3 && Spells(o, ds, 8)
    ensures Escape([BACKSLASH] + o + rest) == ((64 * ds[0] + 8 * ds[1] + ds[2]) % 256, 4)
  {
    hide Escape, Horner, Spells;
    OctalEscape(o, ds, rest);
    ThreeDigits(ds);
  }

  lemma ThreeDigits(ds: seq<nat>)
    requires |ds| == 3
    ensures Horner(ds, 8) == 64 * ds[0] + 8 * ds[1] + ds[2]
  {
    hide Horner;
    HornerSnoc([], ds[0], 8);
    HornerSnoc([ds[0]], ds[1], 8);
    HornerSnoc([ds[0], ds[1]], ds[2], 8);
    NoDigits();
    assert [] + [ds[0]] == [ds[0]] && [ds[0]] + [ds[1]] == [ds[0], ds[1]] && [ds[0], ds[1]] + [ds[2]] == ds;
  }

  lemma NoDigits()
    ensures Horner([], 8) == 0
  {
  }

  /** An octal escape takes at most three digits. */
  lemma OctalEscape(o: seq<byte>, ds: seq<nat>, rest: seq<byte>)
    requires 1 <= |o| <= 3 && Spells(o, ds, 8) && (|o| < 3 ==> rest == [] || !IsOctal(rest[0]))
    ensures |ds| == |o| && Escape([BACKSLASH] + o + rest) == (Horner(ds, 8) % 256, 1 + |o|)
  {
    hide Horner, Value, Span, Spell, IsHex, SimpleEscape, IsOctal;
    var s := [BACKSLASH] + o + rest;
    assert |ds| == |o|;
    SpelledClass(o, ds, 8);
    SpelledValue(o, ds, 8);
    NotSimple(o[0]);
    assert s[1] == o[0] && s[1..1 + |o|] == o;
    if |s| > 4 {
      assert s[1..4] == o + s[1 + |o|..4];
      assert |o| < 3 ==> s[1 + |o|..4] != [] && s[1 + |o|..4][0] == rest[0];
      T.SpanPrefix(IsOctal, o, s[1 + |o|..4]);
    } else {
      assert s[1..] == o + rest;
      assert |o| == 3 ==> rest == [];
      T.SpanPrefix(IsOctal, o, rest);
    }
  }

  lemma NotSimple(c: byte)
    requires IsOctal(c)
    ensures SimpleEscape(c) < 0 && c != LOWER_X
  {
  }

  /** A hexadecimal escape of one digit. */
  lemma HexEscape(a: byte, rest: seq<byte>)
    requires IsHex(a) && (rest == [] || !IsHex(rest[0]))
    ensures Escape([BACKSLASH, 'x' as int, a] + rest) == ((a - 48) % 256, 3)
  {
    hide Value, Span, IsHex, SimpleEscape;
    NoX();
    var s := [BACKSLASH, 'x' as int, a] + rest;
    assert |s| > 3 ==> s[3] == rest[0];
  }

  lemma NoX()
    ensures SimpleEscape('x' as int) < 0
  {
  }

  /** Where no escape sequence begins, the backslash is dropped and the character behind it is delivered
      twice, or instead of \x; at the end of the input it is the byte that the end of file turns into. */
  lemma BadEscape(c: byte, rest: seq<byte>)
    requires !IsOctal(c) && c != 'x' as int && forall i :: 0 <= i < |LETTERS| ==> c != LETTERS[i] as int
    ensures Escape([BACKSLASH, c] + rest) == (c, 1)
    ensures Escape([BACKSLASH]) == (255, 1)
    ensures rest == [] || !IsHex(rest[0]) ==>
              Escape([BACKSLASH, 'x' as int] + rest) == (if rest == [] then 255 else rest[0], 2)
  {
    hide Value, IsHex, IsOctal;
    NoCode(c);
    NoX();
    hide SimpleEscape;
    var s := [BACKSLASH, c] + rest;
    var t := if |s| > 4 then s[1..4] else s[1..];
    assert t[0] == c && Span(IsOctal, t) == 0;
    var x := [BACKSLASH, 'x' as int] + rest;
    assert |x| > 2 ==> x[2] == rest[0];
  }

  lemma NoCode(c: byte)
    requires forall i :: 0 <= i < |LETTERS| ==> c != LETTERS[i] as int
    ensures SimpleEscape(c) < 0
  {
    assert c != LETTERS[0] as int && c != LETTERS[1] as int && c != LETTERS[2] as int && c != LETTERS[3] as int;
    assert c != LETTERS[4] as int && c != LETTERS[5] as int && c != LETTERS[6] as int && c != LETTERS[7] as int;
    assert c != LETTERS[8] as int && c != LETTERS[9] as int;
  }

  lemma {:induction false} PiecesRead(ps: seq<Piece>, rest: seq<byte>)
    requires forall i :: 0 <= i < |ps| ==> ValidPiece(ps[i])
    ensures StrChars(PiecesText(ps) + ([QUOTE] + rest)) == (PiecesBytes(ps), rest)
  {
    hide StrChars, ValidPiece, PieceText, PieceByte;
    var s := PiecesText(ps) + ([QUOTE] + rest);
    if ps == [] {
      assert s == [QUOTE] + rest;
      ClosingQuote(s);
    } else {
      assert s == PieceText(ps[0]) + (PiecesText(ps[1..]) + ([QUOTE] + rest));
      PieceReads(ps[0], PiecesText(ps[1..]) + ([QUOTE] + rest));
      PiecesRead(ps[1..], rest);
    }
  }

  lemma ClosingQuote(s: seq<byte>)
    requires s != [] && s[0] == QUOTE
    ensures StrChars(s) == ([], s[1..])
  {
  }

  predicate ValidLiterals(ls: seq<seq<Piece>>) {
    forall i, j :: 0 <= i < |ls| && 0 <= j < |ls[i]| ==> ValidPiece(ls[i][j])
  }

  /** String literals next to each other, with white space after each. */
  function LiteralsText(ls: seq<seq<Piece>>, gap: seq<byte>): seq<byte>
    requires ValidLiterals(ls)
  {
    if ls == [] then []
    else
      assert forall j :: 0 <= j < |ls[0]| ==> ValidPiece(ls[0][j]);
      Ascii("\"") + PiecesText(ls[0]) + Ascii("\"") + gap + LiteralsText(ls[1..], gap)
  }

  function LiteralsBytes(ls: seq<seq<Piece>>): seq<byte>
    requires ValidLiterals(ls)
  {
    if ls == [] then []
    else
      assert forall j :: 0 <= j < |ls[0]| ==> ValidPiece(ls[0][j]);
      PiecesBytes(ls[0]) + LiteralsBytes(ls[1..])
  }

  /** They are one token. */
  lemma {:induction false} StringToken(ls: seq<seq<Piece>>, gap: seq<byte>, rest: seq<byte>)
    requires ls != [] && ValidLiterals(ls) && T.NoLiteral(rest)
    requires forall i :: 0 <= i < |gap| ==> IsSpace(gap[i])
    ensures Lex(LiteralsText(ls, gap) + rest) == Pos(Str(LiteralsBytes(ls)), SkipSpaces(rest))
  {
    hide Lex, ScanStr, ValidPiece, SkipSpaces, LiteralsText, LiteralsBytes;
    LiteralsScan(ls, gap, rest);
    T.LexQuote(LiteralsText(ls, gap) + rest);
  }

  lemma {:induction false} LiteralsScan(ls: seq<seq<Piece>>, gap: seq<byte>, rest: seq<byte>)
    requires ls != [] && ValidLiterals(ls) && T.NoLiteral(rest)
    requires forall i :: 0 <= i < |gap| ==> IsSpace(gap[i])
    ensures LiteralsText(ls, gap) != [] && LiteralsText(ls, gap)[0] == QUOTE
    ensures ScanStr((LiteralsText(ls, gap) + rest)[1..]) == Pos(Str(LiteralsBytes(ls)), SkipSpaces(rest))
  {
    hide StrChars, ValidPiece, SkipSpaces, PiecesText, PiecesBytes, LiteralsText, LiteralsBytes, T.NoLiteral;
    var more := LiteralsText(ls[1..], gap) + rest;
    FirstLiteral(ls, gap, rest);
    var ps := ls[0];
    PiecesRead(ps, gap + more);
    T.LexSkips(gap, more);
    if |ls| == 1 {
      NoMore(ls[1..], gap, rest);
      QuoteIsNone(rest);
    } else {
      LiteralsScan(ls[1..], gap, rest);
      T.NoSpace(more);
    }
  }

  lemma QuoteIsNone(rest: seq<byte>)
    requires T.NoLiteral(rest)
    ensures SkipSpaces(rest) == [] || SkipSpaces(rest)[0] != QUOTE
  {
  }

  lemma NoMore(ls: seq<seq<Piece>>, gap: seq<byte>, rest: seq<byte>)
    requires ls == [] && ValidLiterals(ls)
    ensures LiteralsText(ls, gap) + rest == rest && LiteralsBytes(ls) == []
  {
  }

  lemma {:induction false} FirstLiteral(ls: seq<seq<Piece>>, gap: seq<byte>, rest: seq<byte>)
    requires ls != [] && ValidLiterals(ls)
    ensures ValidLiterals(ls[1..]) && forall j :: 0 <= j < |ls[0]| ==> ValidPiece(ls[0][j])
    ensures LiteralsText(ls, gap) != [] && LiteralsText(ls, gap)[0] == QUOTE
    ensures (LiteralsText(ls, gap) + rest)[1..]
         == PiecesText(ls[0]) + ([QUOTE] + (gap + (LiteralsText(ls[1..], gap) + rest)))
    ensures LiteralsBytes(ls) == PiecesBytes(ls[0]) + LiteralsBytes(ls[1..])
  {
    hide ValidPiece, PiecesText, PiecesBytes, Ascii;
    assert forall j :: 0 <= j < |ls[0]| ==> ValidPiece(ls[0][j]);
    QuoteByte();
    QuoteFirst(PiecesText(ls[0]), gap, LiteralsText(ls[1..], gap), rest);
  }

  lemma QuoteByte()
    ensures Ascii("\"") == [QUOTE]
  {
  }

  lemma QuoteFirst(text: seq<byte>, gap: seq<byte>, more: seq<byte>, rest: seq<byte>)
    ensures var s := [QUOTE] + text + [QUOTE] + gap + more;
            s != [] && s[0] == QUOTE && (s + rest)[1..] == text + ([QUOTE] + (gap + (more + rest)))
  {
  }

  // ---------------------------------------------------------------- comments and other characters

  /** A comment up to the end of its line reads as white space. */
  lemma LineComment(mark: seq<byte>, c: seq<byte>, rest: seq<byte>)
    requires mark == Ascii("#") || mark == Ascii("//")
    requires forall i :: 0 <= i < |c| ==> c[i] != '\n' as int
    ensures Lex(mark + c + Ascii("\n") + rest) == Lex(rest)
    ensures Lex(mark + c) == Pos(Eof, [])
  {
    hide Lex, SkipLine, SkipBlock, ScanNum, ScanStr;
    assert Ascii("\n") == [NL];
    assert Ascii("#") == [HASH] && Ascii("//") == [SLASH, SLASH];
    var s, e := mark + c + [NL] + rest, mark + c;
    assert s[|mark|..] == c + ([NL] + rest) && e[|mark|..] == c + [];
    LineSkipped(c, [NL] + rest);
    LineSkipped(c, []);
    MarkSkipped(s, |mark|);
    MarkSkipped(e, |mark|);
    T.LexSpace([NL] + rest);
    assert ([NL] + rest)[1..] == rest;
    NothingLeft();
  }

  lemma NothingLeft()
    ensures Lex([]) == Pos(Eof, [])
  {
  }

  lemma {:induction false} LineSkipped(c: seq<byte>, more: seq<byte>)
    requires (forall i :: 0 <= i < |c| ==> c[i] != NL) && (more == [] || more[0] == NL)
    ensures SkipLine(c + more) == more
  {
    if c == [] {
      assert c + more == more;
    } else {
      assert (c + more)[1..] == c[1..] + more;
      LineSkipped(c[1..], more);
    }
  }

  lemma MarkSkipped(s: seq<byte>, n: nat)
    requires n <= |s|
    requires (n == 1 && s[0] == HASH) || (n == 2 && s[0] == s[1] == SLASH)
    ensures Lex(s) == Lex(SkipLine(s[n..]))
  {
    hide SkipLine, SkipBlock, ScanNum, ScanStr;
    T.NoSpace(s);
  }

  /** A block comment reads as white space; one that is not closed takes the rest of the input. */
  lemma BlockComment(c: seq<byte>, rest: seq<byte>)
    requires forall i :: 0 <= i < |c| - 1 ==> !(c[i] == '*' as int && c[i + 1] == '/' as int)
    ensures Lex(Ascii("/*") + c + Ascii("*/") + rest) == Lex(rest)
    ensures Lex(Ascii("/*") + c) == Pos(Eof, [])
  {
    hide SkipBlock, Lex;
    assert Ascii("/*") == [SLASH, STAR] && Ascii("*/") == [STAR, SLASH];
    var s, e := Ascii("/*") + c + Ascii("*/") + rest, Ascii("/*") + c;
    assert s[2..] == c + ([STAR, SLASH] + rest) && e[2..] == c + [];
    BlockSkipped(c, rest);
    OpenBlock(s);
    OpenBlock(e);
    assert c + [] == c;
    NothingLeft();
  }

  lemma {:induction false} BlockSkipped(c: seq<byte>, rest: seq<byte>)
    requires forall i :: 0 <= i < |c| - 1 ==> !(c[i] == STAR && c[i + 1] == SLASH)
    ensures SkipBlock(c + ([STAR, SLASH] + rest)) == rest && SkipBlock(c) == []
  {
    var s := c + ([STAR, SLASH] + rest);
    if c == [] {
      assert s[0] == STAR && s[1] == SLASH && s[2..] == rest;
    } else {
      assert s[1..] == c[1..] + ([STAR, SLASH] + rest);
      BlockSkipped(c[1..], rest);
    }
  }

  lemma OpenBlock(s: seq<byte>)
    requires |s| >= 2 && s[0] == SLASH && s[1] == STAR
    ensures Lex(s) == Lex(SkipBlock(s[2..]))
  {
    hide SkipLine, SkipBlock, ScanNum, ScanStr;
    T.NoSpace(s);
  }

  /** A slash that begins no comment is dropped, with the character behind it. */
  lemma StraySlash(c: byte, rest: seq<byte>)
    requires c != '*' as int && c != '/' as int
    ensures Lex(Ascii("/") + [c] + rest) == Lex(rest)
    ensures Lex(Ascii("/")) == Pos(Eof, [])
  {
    hide Lex;
    assert Ascii("/") == [SLASH];
    var s, one := Ascii("/") + [c] + rest, Ascii("/");
    assert s[2..] == rest;
    Stray(s);
    Stray(one);
  }

  lemma Stray(s: seq<byte>)
    requires s != [] && s[0] == SLASH && (|s| > 1 ==> s[1] != STAR && s[1] != SLASH)
    ensures Lex(s) == if |s| == 1 then Pos(Eof, []) else Lex(s[2..])
  {
    hide SkipLine, SkipBlock, ScanNum, ScanStr;
    T.NoSpace(s);
  }

  /** Any other character is a token of its own, and so is a minus sign in front of no digit. */
  lemma OtherCharacter(c: byte, rest: seq<byte>)
    requires !IsSpace(c) && !IsIdentChar(c) && c != '/' as int && c != '#' as int && c != '"' as int
    requires c == '-' as int ==> rest == [] || !IsDigit(rest[0])
    ensures Lex([c] + rest) == Pos(Punct(c), rest)
  {
    hide SkipLine, SkipBlock, ScanNum, ScanStr, SkipSpaces;
    var s := [c] + rest;
    assert s[1..] == rest;
    T.NoSpace(s);
  }
}
