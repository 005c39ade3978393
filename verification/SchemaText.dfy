/** The text of schemas: the decompiler (nbufc/b2t.c) and the grammar (nbufc/nbuf.y). */
module SchemaText {
  import opened Bytes
  import opened Lexer
  import opened Tokens
  import opened Schemas
  import opened Names
  import V = ValueParser

  const K_PACKAGE: seq<byte> := [112, 97, 99, 107, 97, 103, 101]
  const K_ENUM: seq<byte> := [101, 110, 117, 109]
  const K_MESSAGE: seq<byte> := [109, 101, 115, 115, 97, 103, 101]

  const TAB: byte := 9
  const EQUALS: byte := 61
  const LBRACKET: byte := 91
  const RBRACKET: byte := 93

  // ---------------------------------------------------------------- decompiling

  /** The name of a field's type. */
  function TypeName(S: Schema, f: FieldDesc): seq<byte> {
    match f.kind
    case BOOL => T_BOOL
    case INT => T_INT + Dec(8 * f.tag1)
    case UINT => T_UINT + Dec(8 * f.tag1)
    case FLOAT => if f.tag1 == 4 then T_FLOAT else T_DOUBLE
    case STR => T_STRING
    case ENUM => if f.tag1 < |S.enums| then S.enums[f.tag1].name else []
    case PTR => if f.tag1 < |S.msgs| then S.msgs[f.tag1].name else []
  }

  /** What a trailing comment says about the place of a field. */
  function PlaceLetter(f: FieldDesc): byte {
    if IsPtr(f) then 112 else if f.kind == BOOL then 98 else 115
  }

  function Comment(text: seq<byte>): seq<byte> {
    [SPACE, SPACE, SLASH, SLASH, SPACE] + text + [NL]
  }

  function FieldLine(S: Schema, f: FieldDesc): seq<byte> {
    [TAB] + (f.name + ([COLON, SPACE] + ((if f.list then [LBRACKET, RBRACKET] else [])
      + (TypeName(S, f) + Comment([PlaceLetter(f)] + Dec(f.tag0))))))
  }

  function FieldLines(S: Schema, fields: seq<FieldDesc>): seq<byte> {
    if fields == [] then [] else FieldLine(S, fields[0]) + FieldLines(S, fields[1..])
  }

  function MsgText(S: Schema, d: MsgDesc): seq<byte> {
    [NL] + K_MESSAGE + [SPACE] + d.name + [SPACE, OPEN, NL] + FieldLines(S, d.fields)
    + [CLOSE] + Comment([40] + Dec(d.ssize) + [115, 44, SPACE] + Dec(d.psize) + [112, 41])
  }

  function ValueLine(v: EnumDesc): seq<byte> {
    [TAB] + (v.name + ([SPACE, EQUALS, SPACE] + (Dec(v.value) + [NL])))
  }

  function ValueLines(values: seq<EnumDesc>): seq<byte> {
    if values == [] then [] else ValueLine(values[0]) + ValueLines(values[1..])
  }

  function EnumText(e: EnumType): seq<byte> {
    [NL] + K_ENUM + [SPACE] + e.name + [SPACE, OPEN, NL] + ValueLines(e.values) + [CLOSE, NL]
  }

  function EnumTexts(enums: seq<EnumType>): seq<byte> {
    if enums == [] then [] else EnumText(enums[0]) + EnumTexts(enums[1..])
  }

  function MsgTexts(S: Schema, msgs: seq<MsgDesc>): seq<byte> {
    if msgs == [] then [] else MsgText(S, msgs[0]) + MsgTexts(S, msgs[1..])
  }

  /** The text of a schema: package, enums, messages. */
  function PrintSchema(S: Schema): seq<byte> {
    (if S.pkg == [] then [] else K_PACKAGE + [SPACE] + S.pkg + [NL])
    + EnumTexts(S.enums) + MsgTexts(S, S.msgs)
  }

  /** The decompiler's loops write the same text. */
  method PrintEnum(e: EnumType) returns (out: seq<byte>)
    ensures out == EnumText(e)
  {
    hide ValueLine;
    out := [NL] + K_ENUM + [SPACE] + e.name + [SPACE, OPEN, NL];
    ghost var front := out;
    var i := 0;
    assert e.values[0..] == e.values;
    while i < |e.values|
      invariant i <= |e.values| && out + ValueLines(e.values[i..]) == front + ValueLines(e.values)
    {
      assert e.values[i..][1..] == e.values[i + 1..];
      out := out + ValueLine(e.values[i]);
      i := i + 1;
    }
    assert out + [] == out;
    out := out + [CLOSE, NL];
  }

  method PrintMsgType(S: Schema, d: MsgDesc) returns (out: seq<byte>)
    ensures out == MsgText(S, d)
  {
    hide FieldLine, Comment;
    out := [NL] + K_MESSAGE + [SPACE] + d.name + [SPACE, OPEN, NL];
    ghost var front := out;
    var i := 0;
    assert d.fields[0..] == d.fields;
    while i < |d.fields|
      invariant i <= |d.fields| && out + FieldLines(S, d.fields[i..]) == front + FieldLines(S, d.fields)
    {
      assert d.fields[i..][1..] == d.fields[i + 1..];
      out := out + FieldLine(S, d.fields[i]);
      i := i + 1;
    }
    assert out + [] == out;
    out := out + [CLOSE] + Comment([40] + Dec(d.ssize) + [115, 44, SPACE] + Dec(d.psize) + [112, 41]);
  }

  method PrintAll(S: Schema) returns (out: seq<byte>)
    ensures out == PrintSchema(S)
  {
    hide EnumText, MsgText;
    out := if S.pkg == [] then [] else K_PACKAGE + [SPACE] + S.pkg + [NL];
    ghost var front := out;
    var i := 0;
    assert S.enums[0..] == S.enums;
    while i < |S.enums|
      invariant i <= |S.enums| && out + EnumTexts(S.enums[i..]) == front + EnumTexts(S.enums)
    {
      assert S.enums[i..][1..] == S.enums[i + 1..];
      var text := PrintEnum(S.enums[i]);
      out := out + text;
      i := i + 1;
    }
    assert out + [] == out;
    i := 0;
    assert S.msgs[0..] == S.msgs;
    while i < |S.msgs|
      invariant i <= |S.msgs|
      invariant out + MsgTexts(S, S.msgs[i..]) == front + EnumTexts(S.enums) + MsgTexts(S, S.msgs)
    {
      assert S.msgs[i..][1..] == S.msgs[i + 1..];
      var text := PrintMsgType(S, S.msgs[i]);
      out := out + text;
      i := i + 1;
    }
    assert out + [] == out;
  }

  // ---------------------------------------------------------------- the grammar

  datatype Parsed<T> = Parsed(v: T, p: Pos) | SyntaxError

  /** An identifier that is not a keyword. */
  predicate IsId(tok: Token) {
    tok.Ident? && tok.s != K_PACKAGE && tok.s != K_ENUM && tok.s != K_MESSAGE
  }

  /** The values of an enum.  A value that is not given is one more than its predecessor. */
  function ParseValues(p: Pos, next: nat): (r: Parsed<seq<EnumDesc>>)
    ensures r.Parsed? ==> V.Left(r.p) <= V.Left(p)
    decreases V.Left(p)
  {
    if !IsId(p.tok) then Parsed([], p)
    else
      var q := V.Next(p);
      var n := if q.tok == Punct(EQUALS) then V.Next(q) else q;
      if q.tok == Punct(EQUALS) && !n.tok.Int? then SyntaxError
      else
        var val := if q.tok == Punct(EQUALS) then n.tok.v % 0x1_0000 else next;
        var rest := ParseValues(if q.tok == Punct(EQUALS) then V.Next(n) else q, (val + 1) % 0x1_0000);
        if rest.SyntaxError? then SyntaxError else Parsed([EnumDesc(p.tok.s, val)] + rest.v, rest.p)
  }

  /** The fields of a message. */
  function ParseFields(p: Pos): (r: Parsed<seq<FieldDecl>>)
    ensures r.Parsed? ==> V.Left(r.p) <= V.Left(p)
    decreases V.Left(p)
  {
    if !IsId(p.tok) then Parsed([], p)
    else
      var q := V.Next(p);
      if q.tok != Punct(COLON) then SyntaxError
      else
        var b := V.Next(q);
        var list := b.tok == Punct(LBRACKET);
        var c := if list then V.Next(b) else b;
        if list && c.tok != Punct(RBRACKET) then SyntaxError
        else
          var t := if list then V.Next(c) else b;
          if !IsId(t.tok) then SyntaxError
          else
            var rest := ParseFields(V.Next(t));
            if rest.SyntaxError? then SyntaxError
            else Parsed([FieldDecl(p.tok.s, t.tok.s, list)] + rest.v, rest.p)
  }

  /** Behind the keyword of a declaration: its name and the opening brace. */
  function ParseHead(p: Pos): (r: Parsed<seq<byte>>)
    ensures r.Parsed? ==> V.Left(r.p) < V.Left(p)
  {
    var q := V.Next(p);
    if IsId(p.tok) && q.tok == Punct(OPEN) then Parsed(p.tok.s, V.Next(q)) else SyntaxError
  }

  /** Where the grammar's input ends; a NUL character counts as the end. */
  predicate AtEnd(tok: Token) {
    tok == Eof || tok == Punct(0)
  }

  /** All declarations up to the end of the input. */
  function ParseDecls(p: Pos): (r: Option<(seq<EnumDecl>, seq<MsgDecl>)>)
    decreases V.Left(p)
  {
    if AtEnd(p.tok) then Some(([], []))
    else if p.tok == Ident(K_ENUM) then
      var h := ParseHead(V.Next(p));
      if h.SyntaxError? then None
      else
        var b := ParseValues(h.p, 0);
        if b.SyntaxError? || b.p.tok != Punct(CLOSE) then None
        else
          var rest := ParseDecls(V.Next(b.p));
          if rest.None? then None else Some(([EnumDecl(h.v, b.v)] + rest.value.0, rest.value.1))
    else if p.tok == Ident(K_MESSAGE) then
      var h := ParseHead(V.Next(p));
      if h.SyntaxError? then None
      else
        var b := ParseFields(h.p);
        if b.SyntaxError? || b.p.tok != Punct(CLOSE) then None
        else
          var rest := ParseDecls(V.Next(b.p));
          if rest.None? then None else Some((rest.value.0, [MsgDecl(h.v, b.v)] + rest.value.1))
    else None
  }

  /** A whole schema. */
  function ParseSchema(input: seq<byte>): (r: Option<Source>) {
    var p := Lex(input);
    var q := V.Next(p);
    if p.tok == Ident(K_PACKAGE) && !IsId(q.tok) then None
    else
      var d := ParseDecls(if p.tok == Ident(K_PACKAGE) then V.Next(q) else p);
      if d.None? then None
      else Some(Source(if p.tok == Ident(K_PACKAGE) then q.tok.s else [], d.value.0, d.value.1))
  }
}
