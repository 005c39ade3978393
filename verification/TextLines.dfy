/** The printed text of a message, line by line (lib/print.c): what stands on each line, how it is indented, and
    what ends it. */
module TextLines {
  import opened Bytes
  import L = Lexer
  import K = Tokens
  import X = Lexemes
  import opened Schemas
  import opened Views
  import T = Texts

  /** A line: how deep it is nested, and its text without indentation. */
  datatype Line = Line(depth: nat, text: seq<byte>)

  /** A number in decimal digits. */
  function Decimal(v: int): seq<byte> {
    if v < 0 then Ascii("-") + X.Written(X.DigitsOf(-v, 10), "0123456789")
    else X.Written(X.DigitsOf(v, 10), "0123456789")
  }

  /** A byte inside quotes: as it is, behind a backslash, or as two hexadecimal digits. */
  function Quoted(b: byte): seq<byte> {
    if b == '"' as int then Ascii("\\\"")
    else if ' ' as int <= b <= '~' as int then [b]
    else Ascii("\\x") + X.Written([b / 16, b % 16], "0123456789abcdef")
  }

  function AllQuoted(s: seq<byte>): seq<byte> {
    if s == [] then [] else Quoted(s[0]) + AllQuoted(s[1..])
  }

  /** The first entry of an enum with value v. */
  predicate FirstOf(values: seq<EnumDesc>, v: int, i: nat) {
    i < |values| && values[i].value == v && forall j :: 0 <= j < i ==> values[j].value != v
  }

  /** What stands for a value that is no message. */
  ghost function ValueText(S: Schema, f: FieldDesc, v: Val): seq<byte> {
    match v
    case VBool(b) => if b then Ascii("true") else Ascii("false")
    case VInt(n) =>
      if f.kind == ENUM && f.tag1 < |S.enums| && exists i: nat :: FirstOf(S.enums[f.tag1].values, n, i) then
        var i: nat :| FirstOf(S.enums[f.tag1].values, n, i);
        S.enums[f.tag1].values[i].name
      else Decimal(n)
    case VStr(s) => Ascii("\"") + AllQuoted(s) + Ascii("\"")
    case VMsg(_) => []
  }

  /** The lines of a message from field i on. */
  ghost function MsgLines(S: Schema, mi: nat, m: Msg, i: nat, depth: nat): seq<Line>
    requires mi < |S.msgs| && Typed(S, mi, m) && i <= |m|
    decreases m, 3, |m| - i
  {
    if i == |m| then []
    else
      assert TypedField(S, S.msgs[mi].fields[i], m[i]);
      FieldLines(S, S.msgs[mi].fields[i], m[i].s, 0, depth) + MsgLines(S, mi, m, i + 1, depth)
  }

  ghost function FieldLines(S: Schema, f: FieldDesc, vs: seq<Val>, j: nat, depth: nat): seq<Line>
    requires j <= |vs| && forall k :: 0 <= k < |vs| ==> TypedItem(S, f, vs[k])
    decreases vs, 2, |vs| - j
  {
    if j == |vs| then [] else ItemLines(S, f, vs[j], depth) + FieldLines(S, f, vs, j + 1, depth)
  }

  /** One line for a value; a message stands between a line that opens it and one that closes it. */
  ghost function ItemLines(S: Schema, f: FieldDesc, v: Val, depth: nat): seq<Line>
    requires TypedItem(S, f, v)
    decreases v, 1
  {
    if f.kind == PTR then
      [Line(depth, f.name + Ascii(" {"))] + MsgLines(S, f.tag1, v.m, 0, depth + 1) + [Line(depth, Ascii("}"))]
    else [Line(depth, f.name + Ascii(": ") + ValueText(S, f, v))]
  }

  /** With an increment each line is indented and ends with a line feed; with a negative one it is not
      indented and ends with a space. */
  function Join(lines: seq<Line>, inc: int): seq<byte> {
    if lines == [] then [] else LineText(lines[0], inc) + Join(lines[1..], inc)
  }

  function LineText(line: Line, inc: int): seq<byte> {
    if inc >= 0 then Blanks(inc * line.depth) + line.text + Ascii("\n") else line.text + Ascii(" ")
  }

  function Blanks(n: int): seq<byte> {
    if n <= 0 then [] else Ascii(" ") + Blanks(n - 1)
  }

  // ---------------------------------------------------------------- values

  lemma {:induction false} DecimalIs(n: nat)
    ensures K.Dec(n) == X.Written(X.DigitsOf(n, 10), "0123456789")
  {
    var letters := "0123456789";
    if n < 10 {
      Digit(n);
    } else {
      X.Smaller(n, 10);
      DecimalIs(n / 10);
      Digit(n % 10);
      var ds := X.DigitsOf(n / 10, 10);
      assert X.Written(ds + [n % 10], letters) == X.Written(ds, letters) + X.Written([n % 10], letters);
    }
  }

  lemma Digit(d: nat)
    requires d < 10
    ensures X.Written([d], "0123456789") == [48 + d]
  {
    var letters := "0123456789";
    assert letters[d] as int == 48 + d;
  }

  lemma IntIs(v: int)
    ensures K.DecInt(v) == Decimal(v)
  {
    hide X.Written, X.DigitsOf, K.Dec;
    DecimalIs(if v < 0 then -v else v);
    assert Ascii("-") == [L.MINUS];
  }

  lemma QuotedIs(b: byte)
    ensures K.EscapeByte(b) == Quoted(b)
  {
    assert Ascii("\\\"") == [92, 34] && Ascii("\\x") == [92, 120];
    HexIs(b / 16);
    HexIs(b % 16);
    assert X.Written([b / 16, b % 16], "0123456789abcdef")
        == X.Written([b / 16], "0123456789abcdef") + X.Written([b % 16], "0123456789abcdef");
  }

  lemma HexIs(d: nat)
    requires d < 16
    ensures X.Written([d], "0123456789abcdef") == [K.HexDigit(d)]
  {
    var letters := "0123456789abcdef";
    assert letters[d] as int == if d < 10 then 48 + d else 87 + d;
  }

  lemma {:induction false} AllQuotedIs(s: seq<byte>)
    ensures K.EscapeAll(s) == AllQuoted(s)
  {
    hide Quoted, K.EscapeByte;
    if s != [] {
      QuotedIs(s[0]);
      AllQuotedIs(s[1..]);
    }
  }

  lemma {:induction false} FirstName(values: seq<EnumDesc>, v: nat)
    ensures EnumName(values, v).None? ==> forall i: nat :: !FirstOf(values, v, i)
    ensures EnumName(values, v).Some? ==>
              exists i: nat :: FirstOf(values, v, i) && values[i].name == EnumName(values, v).value
  {
    if values != [] {
      if values[0].value == v {
        assert FirstOf(values, v, 0);
      } else {
        FirstName(values[1..], v);
        if EnumName(values, v).Some? {
          var i: nat :| FirstOf(values[1..], v, i) && values[1..][i].name == EnumName(values, v).value;
          forall j | 0 <= j < i + 1
            ensures values[j].value != v
          {
            assert j > 0 ==> values[j] == values[1..][j - 1];
          }
          assert FirstOf(values, v, i + 1);
        }
      }
    }
  }

  lemma ValueIs(S: Schema, f: FieldDesc, v: Val, ind: int, inc: int)
    requires f.kind != PTR && TypedItem(S, f, v)
    ensures T.TextVal(S, f, v, ind, inc) == ValueText(S, f, v)
  {
    hide X.Written, X.DigitsOf, K.Dec, AllQuoted, K.EscapeAll;
    match v
    case VBool(b) => assert Ascii("true") == T.TRUE && Ascii("false") == T.FALSE;
    case VInt(n) =>
      IntIs(n);
      if f.kind == ENUM && f.tag1 < |S.enums| {
        FirstName(S.enums[f.tag1].values, n);
      }
    case VStr(s) =>
      AllQuotedIs(s);
      assert Ascii("\"") == [L.QUOTE];
    case VMsg(_) =>
  }

  // ---------------------------------------------------------------- lines

  lemma {:induction false} JoinConcat(x: seq<Line>, y: seq<Line>, inc: int)
    ensures Join(x + y, inc) == Join(x, inc) + Join(y, inc)
  {
    hide LineText;
    if x == [] {
      assert x + y == y;
    } else {
      assert (x + y)[1..] == x[1..] + y;
      JoinConcat(x[1..], y, inc);
    }
  }

  lemma {:induction false} BlanksAre(n: int)
    ensures Blanks(n) == T.Spaces(n)
  {
    if n > 0 {
      BlanksAre(n - 1);
    }
  }

  /** A line as the printer writes it. */
  lemma JoinOne(depth: nat, text: seq<byte>, ind: int, inc: int)
    requires ind == inc * depth
    ensures Join([Line(depth, text)], inc) == T.Spaces(ind) + text + [T.Break(inc)]
  {
    BlanksAre(ind);
    NegativeIndent(inc, depth);
    var lines := [Line(depth, text)];
    assert lines[1..] == [] && Ascii("\n") == [10] && Ascii(" ") == [32];
    hide Blanks;
  }

  lemma NegativeIndent(inc: int, depth: nat)
    ensures inc < 0 ==> inc * depth <= 0
  {
  }

  /** The text of a message is its lines, one after the other. */
  lemma {:induction false} TextIsLines(S: Schema, mi: nat, m: Msg, i: nat, depth: nat, ind: int, inc: int)
    requires mi < |S.msgs| && Typed(S, mi, m) && i <= |m| && ind == inc * depth
    ensures T.TextFrom(S, S.msgs[mi].fields, m, i, ind, inc) == Join(MsgLines(S, mi, m, i, depth), inc)
    decreases m, 3, |m| - i
  {
    hide Join, T.TextItems, FieldLines, TypedItem;
    if i < |m| {
      var f := S.msgs[mi].fields[i];
      assert TypedField(S, f, m[i]);
      ItemsAreLines(S, f, m[i].s, 0, depth, ind, inc);
      TextIsLines(S, mi, m, i + 1, depth, ind, inc);
      JoinConcat(FieldLines(S, f, m[i].s, 0, depth), MsgLines(S, mi, m, i + 1, depth), inc);
    } else {
      NoLines(inc);
    }
  }

  lemma {:induction false} ItemsAreLines(S: Schema, f: FieldDesc, vs: seq<Val>, j: nat, depth: nat, ind: int, inc: int)
    requires j <= |vs| && (forall k :: 0 <= k < |vs| ==> TypedItem(S, f, vs[k])) && ind == inc * depth
    ensures T.TextItems(S, f, vs, j, ind, inc) == Join(FieldLines(S, f, vs, j, depth), inc)
    decreases vs, 2, |vs| - j
  {
    hide Join, T.TextItem, ItemLines, TypedItem;
    if j < |vs| {
      ItemIsLines(S, f, vs[j], depth, ind, inc);
      ItemsAreLines(S, f, vs, j + 1, depth, ind, inc);
      JoinConcat(ItemLines(S, f, vs[j], depth), FieldLines(S, f, vs, j + 1, depth), inc);
    } else {
      NoLines(inc);
    }
  }

  lemma {:induction false} ItemIsLines(S: Schema, f: FieldDesc, v: Val, depth: nat, ind: int, inc: int)
    requires TypedItem(S, f, v) && ind == inc * depth
    ensures T.TextItem(S, f, v, ind, inc) == Join(ItemLines(S, f, v, depth), inc)
    decreases v, 1
  {
    if f.kind != PTR {
      ValueIs(S, f, v, ind, inc);
      hide *;
      ValueLine(S, f, v, depth, ind, inc);
    } else {
      Deeper(inc, depth);
      TextIsLines(S, f.tag1, v.m, 0, depth + 1, ind + inc, inc);
      MsgIsLines(S, f, v, depth, ind, inc);
    }
  }

  lemma Deeper(inc: int, depth: nat)
    ensures inc * (depth + 1) == inc * depth + inc
  {
  }

  lemma ValueLine(S: Schema, f: FieldDesc, v: Val, depth: nat, ind: int, inc: int)
    requires TypedItem(S, f, v) && ind == inc * depth && f.kind != PTR
    requires T.TextVal(S, f, v, ind, inc) == ValueText(S, f, v)
    ensures T.TextItem(S, f, v, ind, inc) == Join(ItemLines(S, f, v, depth), inc)
  {
    hide Join, T.TextVal, ValueText, T.Spaces, T.Break, TypedItem;
    var text := f.name + Ascii(": ") + ValueText(S, f, v);
    assert Ascii(": ") == [L.COLON, L.SPACE];
    JoinOne(depth, text, ind, inc);
  }

  lemma MsgIsLines(S: Schema, f: FieldDesc, v: Val, depth: nat, ind: int, inc: int)
    requires TypedItem(S, f, v) && ind == inc * depth && f.kind == PTR && |v.m| == |S.msgs[f.tag1].fields|
    requires T.TextFrom(S, S.msgs[f.tag1].fields, v.m, 0, ind + inc, inc)
          == Join(MsgLines(S, f.tag1, v.m, 0, depth + 1), inc)
    ensures T.TextItem(S, f, v, ind, inc) == Join(ItemLines(S, f, v, depth), inc)
  {
    hide Join, T.TextFrom, MsgLines, T.Spaces, T.Break, Typed;
    var inner := MsgLines(S, f.tag1, v.m, 0, depth + 1);
    var head, tail := Line(depth, f.name + Ascii(" {")), Line(depth, Ascii("}"));
    assert Ascii(" {") == [L.SPACE, L.OPEN] && Ascii("}") == [L.CLOSE];
    JoinOne(depth, head.text, ind, inc);
    JoinOne(depth, tail.text, ind, inc);
    JoinConcat([head] + inner, [tail], inc);
    JoinConcat([head], inner, inc);
    BracesApart(T.Spaces(ind), f.name, T.Break(inc), T.TextFrom(S, S.msgs[f.tag1].fields, v.m, 0, ind + inc, inc));
  }

  lemma BracesApart(pad: seq<byte>, name: seq<byte>, nl: byte, inner: seq<byte>)
    ensures pad + name + [L.SPACE] + ([L.OPEN, nl] + inner + pad + [L.CLOSE]) + [nl]
         == (pad + (name + [L.SPACE, L.OPEN]) + [nl]) + inner + (pad + [L.CLOSE] + [nl])
  {
  }

  /** The whole text. */
  lemma WholeText(S: Schema, mi: nat, m: Msg, inc: int)
    requires mi < |S.msgs| && Typed(S, mi, m)
    ensures T.Text(S, mi, m, inc) == Join(MsgLines(S, mi, m, 0, 0), inc)
  {
    hide Join, MsgLines, Typed;
    assert |m| == |S.msgs[mi].fields| by { Fields(S, mi, m); }
    TextIsLines(S, mi, m, 0, 0, 0, inc);
  }

  lemma Fields(S: Schema, mi: nat, m: Msg)
    requires mi < |S.msgs| && Typed(S, mi, m)
    ensures |m| == |S.msgs[mi].fields|
  {
  }

  lemma NoLines(inc: int)
    ensures Join([], inc) == []
  {
  }

  // ---------------------------------------------------------------- line feeds

  predicate NoFeed(s: seq<byte>) {
    forall i :: 0 <= i < |s| ==> s[i] != '\n' as int
  }

  predicate NoFeeds(lines: seq<Line>) {
    forall i :: 0 <= i < |lines| ==> NoFeed(lines[i].text)
  }

  /** No name of the schema contains a line feed. */
  predicate PlainNames(S: Schema) {
    && (forall i, j :: 0 <= i < |S.msgs| && 0 <= j < |S.msgs[i].fields| ==> NoFeed(S.msgs[i].fields[j].name))
    && (forall i, j :: 0 <= i < |S.enums| && 0 <= j < |S.enums[i].values| ==> NoFeed(S.enums[i].values[j].name))
  }

  lemma {:induction false} QuotedNoFeed(s: seq<byte>)
    ensures NoFeed(AllQuoted(s))
  {
    if s != [] {
      QuotedIs(s[0]);
      assert NoFeed(K.EscapeByte(s[0]));
      QuotedNoFeed(s[1..]);
    }
  }

  lemma {:induction false} DecNoFeed(n: nat)
    ensures NoFeed(K.Dec(n))
  {
  }

  lemma ValueNoFeed(S: Schema, f: FieldDesc, v: Val)
    requires PlainNames(S)
    ensures NoFeed(ValueText(S, f, v))
  {
    hide K.Dec, AllQuoted, Decimal;
    assert NoFeed(Ascii("true")) && NoFeed(Ascii("false")) && NoFeed(Ascii("\""));
    match v
    case VBool(_) =>
    case VInt(n) =>
      IntIs(n);
      DecNoFeed(if n < 0 then -n else n);
    case VStr(s) => QuotedNoFeed(s);
    case VMsg(_) =>
  }

  lemma {:induction false} MsgNoFeed(S: Schema, mi: nat, m: Msg, i: nat, depth: nat)
    requires PlainNames(S) && mi < |S.msgs| && Typed(S, mi, m) && i <= |m|
    ensures NoFeeds(MsgLines(S, mi, m, i, depth))
    decreases m, 3, |m| - i
  {
    hide NoFeed, FieldLines, TypedItem;
    if i < |m| {
      assert TypedField(S, S.msgs[mi].fields[i], m[i]);
      ItemsNoFeed(S, S.msgs[mi].fields[i], m[i].s, 0, depth);
      MsgNoFeed(S, mi, m, i + 1, depth);
    }
  }

  lemma {:induction false} ItemsNoFeed(S: Schema, f: FieldDesc, vs: seq<Val>, j: nat, depth: nat)
    requires PlainNames(S) && NoFeed(f.name) && j <= |vs| && forall k :: 0 <= k < |vs| ==> TypedItem(S, f, vs[k])
    ensures NoFeeds(FieldLines(S, f, vs, j, depth))
    decreases vs, 2, |vs| - j
  {
    hide NoFeed, PlainNames, ItemLines, TypedItem;
    if j < |vs| {
      ItemNoFeed(S, f, vs[j], depth);
      ItemsNoFeed(S, f, vs, j + 1, depth);
    }
  }

  lemma {:induction false} ItemNoFeed(S: Schema, f: FieldDesc, v: Val, depth: nat)
    requires PlainNames(S) && NoFeed(f.name) && TypedItem(S, f, v)
    ensures NoFeeds(ItemLines(S, f, v, depth))
    decreases v, 1
  {
    hide PlainNames, ValueText, MsgLines;
    assert NoFeed(Ascii(" {")) && NoFeed(Ascii("}")) && NoFeed(Ascii(": "));
    if f.kind == PTR {
      MsgNoFeed(S, f.tag1, v.m, 0, depth + 1);
    } else {
      ValueNoFeed(S, f, v);
    }
    hide Ascii;
  }

  lemma {:induction false} JoinNoFeed(lines: seq<Line>, inc: int)
    requires NoFeeds(lines) && inc < 0
    ensures NoFeed(Join(lines, inc))
  {
    if lines != [] {
      JoinNoFeed(lines[1..], inc);
      assert NoFeed(lines[0].text) && NoFeed(Ascii(" "));
    }
  }

  /** With a negative increment the whole text is one line. */
  lemma OneLine(S: Schema, mi: nat, m: Msg, inc: int)
    requires PlainNames(S) && mi < |S.msgs| && Typed(S, mi, m) && inc < 0
    ensures |m| == |S.msgs[mi].fields| && NoFeed(T.Text(S, mi, m, inc))
  {
    hide Join, MsgLines, Typed, PlainNames, T.Text, NoFeed;
    Fields(S, mi, m);
    WholeText(S, mi, m, inc);
    MsgNoFeed(S, mi, m, 0, 0);
    JoinNoFeed(MsgLines(S, mi, m, 0, 0), inc);
  }
}
