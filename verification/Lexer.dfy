/** The lexer of the text formats (lib/token.c): a function from the remaining input to the next token
    and what is left. */
module Lexer {
  import opened Bytes

  /** A token, as the lexer hands it to its callers.  Integers are delivered as a 64-bit word that
      callers read as signed. */
  datatype Token =
    | Eof
    | Punct(c: byte)
    | Ident(s: seq<byte>)
    | Int(v: int)
    | Float(s: seq<byte>)
    | Str(s: seq<byte>)

  /** A token and the input behind it. */
  datatype Pos = Pos(tok: Token, rest: seq<byte>)

  const NL: byte := 10
  const SPACE: byte := 32
  const QUOTE: byte := 34
  const HASH: byte := 35
  const STAR: byte := 42
  const MINUS: byte := 45
  const DOT: byte := 46
  const SLASH: byte := 47
  const ZERO: byte := 48
  const COLON: byte := 58
  const BACKSLASH: byte := 92
  const UNDERSCORE: byte := 95
  const LOWER_X: byte := 120
  const OPEN: byte := 123
  const CLOSE: byte := 125

  predicate IsSpace(c: byte) { 9 <= c <= 13 || c == SPACE }
  predicate IsDigit(c: byte) { ZERO <= c <= 57 }
  predicate IsOctal(c: byte) { ZERO <= c <= 55 }
  predicate IsHex(c: byte) { IsDigit(c) || 65 <= c <= 70 || 97 <= c <= 102 }
  predicate IsAlpha(c: byte) { 65 <= c <= 90 || 97 <= c <= 122 }
  predicate IsAlnum(c: byte) { IsAlpha(c) || IsDigit(c) }
  predicate IsPrint(c: byte) { 32 <= c <= 126 }
  predicate IsIdentStart(c: byte) { IsAlpha(c) || c == UNDERSCORE }
  predicate IsIdentChar(c: byte) { IsAlnum(c) || c == UNDERSCORE }

  /** The longest prefix of characters of a class. */
  function Span(p: byte -> bool, s: seq<byte>): (n: nat)
    ensures n <= |s|
    ensures forall i :: 0 <= i < n ==> p(s[i])
    ensures n < |s| ==> !p(s[n])
  {
    if s == [] || !p(s[0]) then 0 else 1 + Span(p, s[1..])
  }

  function SkipSpaces(s: seq<byte>): (r: seq<byte>)
    ensures |r| <= |s|
    ensures r != [] ==> !IsSpace(r[0])
  {
    s[Span(IsSpace, s)..]
  }

  /** The rest of the line, its end excluded. */
  function SkipLine(s: seq<byte>): (r: seq<byte>)
    ensures |r| <= |s|
  {
    if s == [] || s[0] == NL then s else SkipLine(s[1..])
  }

  /** The rest of a block comment. */
  function SkipBlock(s: seq<byte>): (r: seq<byte>)
    ensures |r| <= |s|
  {
    if s == [] then []
    else if s[0] == STAR then
      if |s| > 1 && s[1] == SLASH then s[2..] else SkipBlock(s[1..])
    else SkipBlock(s[1..])
  }

  // ---------------------------------------------------------------- numbers

  /** The value of a digit string; hexadecimal digits as the C library reads them. */
  function DigitValue(c: byte): nat {
    if IsDigit(c) then c - ZERO else if 97 <= c <= 102 then c - 87 else if 65 <= c <= 70 then c - 55 else 0
  }

  function Value(s: seq<byte>, base: nat): nat {
    if s == [] then 0 else Value(s[..|s| - 1], base) * base + DigitValue(s[|s| - 1])
  }

  const I63: int := 0x8000_0000_0000_0000
  const I64: int := 0x1_0000_0000_0000_0000

  /** A 64-bit word read as signed. */
  function AsSigned(u: nat): int {
    if u < I63 then u else u - I64
  }

  /** Signed numbers saturate at the least 64-bit integer, unsigned ones at the greatest word. */
  function IntToken(neg: bool, v: nat): Token {
    if neg then Int(if v > I63 then 0 - I63 else 0 - v)
    else Int(AsSigned(if v >= I64 then I64 - 1 else v))
  }

  /** Length of a fraction; 0 if there is none. */
  function Fraction(s: seq<byte>): (n: nat)
    ensures n <= |s|
  {
    if s != [] && s[0] == DOT then 1 + Span(IsDigit, s[1..]) else 0
  }

  /** Length of an exponent; 0 if there is none. */
  function Exponent(s: seq<byte>): (n: nat)
    ensures n <= |s|
  {
    if s != [] && (s[0] == 101 || s[0] == 69) then
      var g := if |s| > 1 && (s[1] == 43 || s[1] == MINUS) then 2 else 1;
      g + Span(IsDigit, s[g..])
    else 0
  }

  /** Length of the fraction and exponent that make a decimal number a float; 0 if there are none. */
  function FloatTail(s: seq<byte>): (n: nat)
    ensures n <= |s|
  {
    Fraction(s) + Exponent(s[Fraction(s)..])
  }

  /** A number, whose first character (behind an optional minus) is a digit. */
  function ScanNum(s: seq<byte>): (r: Pos)
    requires s != [] && (s[0] == MINUS ==> |s| > 1)
    ensures |r.rest| < |s|
  {
    var neg := s[0] == MINUS;
    var d := if neg then s[1..] else s;
    if d[0] == ZERO && |d| > 1 && (d[1] == LOWER_X || d[1] == 88) then
      var n := Span(IsHex, d[2..]);
      Pos(IntToken(neg, Value(d[2..2 + n], 16)), d[2 + n..])
    else if d[0] == ZERO && |d| > 1 && IsOctal(d[1]) then
      var n := Span(IsOctal, d[1..]);
      Pos(IntToken(neg, Value(d[1..1 + n], 8)), d[1 + n..])
    else
      var n := if d[0] == ZERO then 1 else 1 + Span(IsDigit, d[1..]);
      var t := FloatTail(d[n..]);
      if t > 0 then Pos(Float(s[..|s| - |d| + n + t]), d[n + t..])
      else Pos(IntToken(neg, Value(d[..n], 10)), d[n..])
  }

  // ---------------------------------------------------------------- strings

  /** The characters behind a backslash that stand for one control character. */
  function SimpleEscape(c: byte): (r: int)
    ensures -1 <= r < 256
  {
    match c
    case 97 => 7
    case 98 => 8
    case 102 => 12
    case 110 => 10
    case 114 => 13
    case 116 => 9
    case 118 => 11
    case 92 => 92
    case 39 => 39
    case 34 => 34
    case _ => -1
  }

  /** The weight the lexer gives to a hexadecimal digit: its distance from '0', even for letters. */
  function HexWeight(c: byte): int {
    c - ZERO
  }

  /** The byte at position i, or the byte that the end of file turns into. */
  function CharAt(s: seq<byte>, i: nat): byte {
    if i < |s| then s[i] else 255
  }

  /** An escape sequence: the byte it stands for and how many characters it takes.  When no digit
      follows, the character behind is delivered but not consumed. */
  function Escape(s: seq<byte>): (r: (byte, nat))
    requires s != [] && s[0] == BACKSLASH
    ensures 1 <= r.1 <= |s|
  {
    if |s| == 1 then (255, 1)
    else if SimpleEscape(s[1]) >= 0 then (SimpleEscape(s[1]), 2)
    else if s[1] == LOWER_X then
      if |s| > 3 && IsHex(s[2]) && IsHex(s[3]) then ((HexWeight(s[2]) * 16 + HexWeight(s[3])) % 256, 4)
      else if |s| > 2 && IsHex(s[2]) then (HexWeight(s[2]) % 256, 3)
      else (CharAt(s, 2), 2)
    else
      var n := Span(IsOctal, if |s| > 4 then s[1..4] else s[1..]);
      if n == 0 then (s[1], 1) else (Value(s[1..1 + n], 8) % 256, 1 + n)
  }

  /** The characters up to the closing quote or the end of the input. */
  function StrChars(s: seq<byte>): (r: (seq<byte>, seq<byte>))
    ensures |r.1| <= |s|
    decreases |s|
  {
    if s == [] then ([], [])
    else if s[0] == QUOTE then ([], s[1..])
    else if s[0] == BACKSLASH then
      var (c, n) := Escape(s);
      var (cs, rest) := StrChars(s[n..]);
      ([c] + cs, rest)
    else
      var (cs, rest) := StrChars(s[1..]);
      ([s[0]] + cs, rest)
  }

  /** A string literal behind its opening quote; literals separated by white space are joined. */
  function ScanStr(s: seq<byte>): (r: Pos)
    ensures |r.rest| <= |s| && r.tok.Str?
    decreases |s|
  {
    var (cs, rest) := StrChars(s);
    var next := SkipSpaces(rest);
    if next != [] && next[0] == QUOTE then
      var more := ScanStr(next[1..]);
      Pos(Str(cs + more.tok.s), more.rest)
    else Pos(Str(cs), next)
  }

  // ---------------------------------------------------------------- tokens

  /** The next token. */
  function Lex(s: seq<byte>): (r: Pos)
    ensures |r.rest| <= |s|
    ensures r.tok != Eof ==> |r.rest| < |s|
    decreases |s|, 1
  {
    LexAt(SkipSpaces(s))
  }

  /** The next token, behind white space. */
  function LexAt(t: seq<byte>): (r: Pos)
    ensures |r.rest| <= |t|
    ensures r.tok != Eof ==> |r.rest| < |t|
    decreases |t|, 0
  {
    if t == [] then Pos(Eof, [])
    else if t[0] == SLASH then
      if |t| == 1 then Pos(Eof, [])
      else if t[1] == STAR then Lex(SkipBlock(t[2..]))
      else if t[1] == SLASH then Lex(SkipLine(t[2..]))
      else Lex(t[2..])
    else if t[0] == HASH then Lex(SkipLine(t[1..]))
    else if t[0] == QUOTE then ScanStr(t[1..])
    else if t[0] == MINUS then
      if |t| > 1 && IsDigit(t[1]) then ScanNum(t) else Pos(Punct(MINUS), t[1..])
    else if IsDigit(t[0]) then ScanNum(t)
    else if IsIdentStart(t[0]) then
      var n := 1 + Span(IsIdentChar, t[1..]);
      Pos(Ident(t[..n]), t[n..])
    else Pos(Punct(t[0]), t[1..])
  }
}
