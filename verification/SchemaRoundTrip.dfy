/** Decompiling a compiled schema and parsing the text gives the schema's source back, so compiling it again
    gives the same schema, layout included. */
module SchemaRoundTrip {
  import opened Bytes
  import opened Lexer
  import opened Tokens
  import opened Schemas
  import opened Messages
  import opened Names
  import opened SchemaCompiler
  import opened SchemaText
  import V = ValueParser

  // ---------------------------------------------------------------- names

  /** What can stand for a name: an identifier that is not a keyword. */
  predicate NameOK(s: seq<byte>) {
    IsName(s) && s != K_PACKAGE && s != K_ENUM && s != K_MESSAGE
  }

  predicate ValuesOK(values: seq<EnumDesc>) {
    forall i :: 0 <= i < |values| ==> NameOK(values[i].name) && values[i].value < 0x1_0000
  }

  predicate FieldsOK(fields: seq<FieldDecl>) {
    forall i :: 0 <= i < |fields| ==> NameOK(fields[i].name) && NameOK(fields[i].tname)
  }

  predicate WellNamed(src: Source) {
    && (src.pkg == [] || NameOK(src.pkg))
    && (forall i :: 0 <= i < |src.enums| ==> NameOK(src.enums[i].name) && ValuesOK(src.enums[i].values))
    && (forall i :: 0 <= i < |src.msgs| ==> NameOK(src.msgs[i].name) && FieldsOK(src.msgs[i].fields))
  }

  // ---------------------------------------------------------------- what the grammar delivers

  predicate TokOK(p: Pos) {
    p.tok.Ident? ==> IsName(p.tok.s)
  }

  lemma {:induction false} TokenNamed(s: seq<byte>)
    ensures TokOK(Lex(s))
    decreases |s|, 1
  {
    hide LexAt, SkipSpaces;
    TokenNamedAt(SkipSpaces(s));
  }

  lemma {:induction false} TokenNamedAt(t: seq<byte>)
    ensures TokOK(LexAt(t))
    decreases |t|, 0
  {
    hide ScanStr, ScanNum, SkipBlock, SkipLine, Lex;
    if t != [] {
      if t[0] == SLASH && |t| > 1 {
        TokenNamed(if t[1] == STAR then SkipBlock(t[2..]) else if t[1] == SLASH then SkipLine(t[2..]) else t[2..]);
      } else if t[0] == HASH {
        TokenNamed(SkipLine(t[1..]));
      } else if t[0] != QUOTE && (t[0] != MINUS || |t| > 1) {
        NumberToken(t);
      }
    }
  }

  lemma NextNamed(p: Pos)
    ensures TokOK(V.Next(p))
  {
    TokenNamed(p.rest);
  }

  lemma {:induction false} ValuesNamed(p: Pos, next: nat)
    requires TokOK(p) && next < 0x1_0000
    ensures var r := ParseValues(p, next); r.Parsed? ==> ValuesOK(r.v) && TokOK(r.p)
    decreases V.Left(p)
  {
    hide Lex, IsName;
    if IsId(p.tok) {
      var q := V.Next(p);
      var n := V.Next(q);
      NextNamed(p);
      NextNamed(q);
      NextNamed(n);
      if q.tok != Punct(EQUALS) {
        ValuesNamed(q, (next + 1) % 0x1_0000);
      } else if n.tok.Int? {
        ValuesNamed(V.Next(n), (n.tok.v % 0x1_0000 + 1) % 0x1_0000);
      }
    }
  }

  lemma {:induction false} FieldsNamed(p: Pos)
    requires TokOK(p)
    ensures var r := ParseFields(p); r.Parsed? ==> FieldsOK(r.v) && TokOK(r.p)
    decreases V.Left(p)
  {
    hide Lex, IsName;
    if IsId(p.tok) {
      var q := V.Next(p);
      if q.tok == Punct(COLON) {
        var b := V.Next(q);
        var list := b.tok == Punct(LBRACKET);
        var t := if list then V.Next(V.Next(b)) else b;
        NextNamed(q);
        NextNamed(V.Next(b));
        if IsId(t.tok) {
          NextNamed(t);
          FieldsNamed(V.Next(t));
        }
      }
    }
  }

  predicate DeclsOK(enums: seq<EnumDecl>, msgs: seq<MsgDecl>) {
    && (forall i :: 0 <= i < |enums| ==> NameOK(enums[i].name) && ValuesOK(enums[i].values))
    && (forall i :: 0 <= i < |msgs| ==> NameOK(msgs[i].name) && FieldsOK(msgs[i].fields))
  }

  lemma HeadNamed(p: Pos)
    requires TokOK(p)
    ensures var h := ParseHead(p); h.Parsed? ==> NameOK(h.v) && TokOK(h.p)
  {
    NextNamed(V.Next(p));
    hide Lex;
  }

  lemma {:induction false} DeclsNamed(p: Pos)
    requires TokOK(p)
    ensures var r := ParseDecls(p); r.Some? ==> DeclsOK(r.value.0, r.value.1)
    decreases V.Left(p)
  {
    hide Lex, NameOK, ValuesOK, FieldsOK, ParseHead, ParseValues, ParseFields, TokOK;
    if p.tok == Ident(K_ENUM) || p.tok == Ident(K_MESSAGE) {
      NextNamed(p);
      HeadNamed(V.Next(p));
      var h := ParseHead(V.Next(p));
      if h.Parsed? {
        if p.tok == Ident(K_ENUM) {
          ValuesNamed(h.p, 0);
          var b := ParseValues(h.p, 0);
          if b.Parsed? && b.p.tok == Punct(CLOSE) {
            NextNamed(b.p);
            DeclsNamed(V.Next(b.p));
          }
        } else {
          FieldsNamed(h.p);
          var b := ParseFields(h.p);
          if b.Parsed? && b.p.tok == Punct(CLOSE) {
            NextNamed(b.p);
            DeclsNamed(V.Next(b.p));
          }
        }
      }
    }
  }

  /** Everything the grammar accepts has proper names and values of 16 bits. */
  lemma SourceNamed(input: seq<byte>)
    requires ParseSchema(input).Some?
    ensures WellNamed(ParseSchema(input).value)
  {
    hide Lex, NameOK, ValuesOK, FieldsOK, ParseDecls, TokOK, V.Next;
    var p := Lex(input);
    var q := V.Next(p);
    TokenNamed(input);
    NextNamed(p);
    NextNamed(q);
    DeclsNamed(if p.tok == Ident(K_PACKAGE) then V.Next(q) else p);
    if p.tok == Ident(K_PACKAGE) {
      IdNamed(q);
    }
  }

  lemma IdNamed(p: Pos)
    requires TokOK(p) && IsId(p.tok)
    ensures NameOK(p.tok.s)
  {
  }

  // ---------------------------------------------------------------- tokens of the text

  /** White space, then a name, then something that is not part of it. */
  lemma SpacedName(c: byte, name: seq<byte>, rest: seq<byte>)
    requires IsSpace(c) && IsName(name) && rest != [] && !IsIdentChar(rest[0])
    ensures Lex([c] + (name + rest)) == Pos(Ident(name), rest)
  {
    hide Lex, IsName, SkipSpaces;
    NameRoundTrip(name, rest);
    LexSkips([c], name + rest);
  }

  lemma SpacedPunct(c: byte, d: byte, rest: seq<byte>)
    requires IsSpace(c) && d in {COLON, OPEN, CLOSE, 44, 59, 61, 91, 93}
    ensures Lex([c, d] + rest) == Pos(Punct(d), rest)
  {
    hide Lex, SkipSpaces;
    PunctRoundTrip(d, rest);
    LexSkips([c], [d] + rest);
    assert [c] + ([d] + rest) == [c, d] + rest;
  }

  lemma Spaced(c: byte, rest: seq<byte>)
    requires IsSpace(c)
    ensures Lex([c] + rest) == Lex(rest)
  {
    hide Lex, SkipSpaces;
    LexSkips([c], rest);
  }

  lemma {:induction false} LineSkipped(text: seq<byte>, rest: seq<byte>)
    requires NL !in text
    ensures SkipLine(text + ([NL] + rest)) == [NL] + rest
  {
    if text == [] {
      assert text + ([NL] + rest) == [NL] + rest;
    } else {
      assert (text + ([NL] + rest))[1..] == text[1..] + ([NL] + rest);
      LineSkipped(text[1..], rest);
    }
  }

  lemma LexLineComment(t: seq<byte>)
    requires |t| > 1 && t[0] == SLASH && t[1] == SLASH
    ensures Lex(t) == Lex(SkipLine(t[2..]))
  {
    hide ScanNum, ScanStr, SkipBlock, SkipLine;
    NoSpace(t);
  }

  /** Comments are skipped together with their line. */
  lemma CommentSkipped(text: seq<byte>, rest: seq<byte>)
    requires NL !in text
    ensures Lex(Comment(text) + rest) == Lex(rest)
  {
    hide Lex, SkipSpaces, SkipLine;
    var line := [SPACE] + text;
    var t := [SLASH, SLASH] + (line + ([NL] + rest));
    assert Comment(text) + rest == [SPACE, SPACE] + t;
    LexSkips([SPACE, SPACE], t);
    LexLineComment(t);
    assert t[2..] == line + ([NL] + rest);
    LineSkipped(line, rest);
    Spaced(NL, rest);
  }

  lemma NoBreaks(n: nat)
    ensures NL !in Dec(n)
  {
    hide Dec;
  }

  // ---------------------------------------------------------------- enums

  lemma ValueText(v: EnumDesc, rest: seq<byte>)
    requires NameOK(v.name) && v.value < 0x1_0000
    ensures var p := Lex(ValueLine(v) + rest);
            && IsId(p.tok) && p.tok.s == v.name && V.Next(p).tok == Punct(EQUALS)
            && V.Next(V.Next(p)).tok == Int(v.value) && V.Next(V.Next(V.Next(p))) == Lex(rest)
  {
    hide Lex, SkipSpaces, Dec, IsName;
    var a := Dec(v.value) + ([NL] + rest);
    var b := [SPACE, EQUALS] + ([SPACE] + a);
    assert ValueLine(v) + rest == [TAB] + (v.name + b);
    SpacedName(TAB, v.name, b);
    SpacedPunct(SPACE, EQUALS, [SPACE] + a);
    Spaced(SPACE, a);
    NumberRoundTrip(v.value, [NL] + rest);
    Spaced(NL, rest);
  }

  lemma {:induction false} ValuesBack(values: seq<EnumDesc>, next: nat, rest: seq<byte>)
    requires ValuesOK(values) && !IsId(Lex(rest).tok)
    ensures ParseValues(Lex(ValueLines(values) + rest), next) == Parsed(values, Lex(rest))
    decreases |values|
  {
    hide Lex, ValueLine, NameOK, V.Next;
    if values == [] {
      assert ValueLines(values) + rest == rest;
    } else {
      var v := values[0];
      var more := ValueLines(values[1..]) + rest;
      assert ValueLines(values) + rest == ValueLine(v) + more;
      ValueText(v, more);
      ValuesBack(values[1..], (v.value + 1) % 0x1_0000, rest);
      assert [EnumDesc(v.name, v.value)] + values[1..] == values;
    }
  }

  /** Behind a keyword: the name of a declaration and its brace. */
  lemma HeadBack(name: seq<byte>, rest: seq<byte>)
    requires NameOK(name)
    ensures ParseHead(Lex([SPACE] + (name + ([SPACE, OPEN, NL] + rest)))) == Parsed(name, Lex(rest))
  {
    hide Lex, SkipSpaces, IsName;
    var b := [SPACE, OPEN] + ([NL] + rest);
    assert [SPACE, OPEN, NL] + rest == b;
    SpacedName(SPACE, name, b);
    SpacedPunct(SPACE, OPEN, [NL] + rest);
    Spaced(NL, rest);
  }

  lemma KeywordNames()
    ensures IsName(K_PACKAGE) && IsName(K_ENUM) && IsName(K_MESSAGE)
    ensures K_PACKAGE != K_ENUM && K_ENUM != K_MESSAGE && K_PACKAGE != K_MESSAGE
  {
  }

  /** The text of one enum, in front of further declarations. */
  lemma EnumBack(e: EnumType, rest: seq<byte>)
    requires NameOK(e.name) && ValuesOK(e.values)
    ensures ParseDecls(Lex(EnumText(e) + rest))
         == if ParseDecls(Lex(rest)).None? then None
            else Some(([EnumDecl(e.name, e.values)] + ParseDecls(Lex(rest)).value.0, ParseDecls(Lex(rest)).value.1))
  {
    hide Lex, SkipSpaces, IsName, NameOK, ParseHead, ParseValues, ValuesOK, ValueLines, ParseDecls;
    var c := [CLOSE] + ([NL] + rest);
    var body := ValueLines(e.values) + c;
    var h := [SPACE] + (e.name + ([SPACE, OPEN, NL] + body));
    assert EnumText(e) + rest == [NL] + (K_ENUM + h);
    KeywordNames();
    SpacedName(NL, K_ENUM, h);
    HeadBack(e.name, body);
    PunctRoundTrip(CLOSE, [NL] + rest);
    ValuesBack(e.values, 0, c);
    Spaced(NL, rest);
    EnumStep(Lex(EnumText(e) + rest), e, Lex(c), Lex(rest));
  }

  lemma {:induction false} EnumStep(p: Pos, e: EnumType, c: Pos, q: Pos)
    requires p.tok == Ident(K_ENUM) && ParseHead(V.Next(p)).Parsed? && ParseHead(V.Next(p)).v == e.name
    requires ParseValues(ParseHead(V.Next(p)).p, 0) == Parsed(e.values, c) && c.tok == Punct(CLOSE) && V.Next(c) == q
    ensures ParseDecls(p)
         == if ParseDecls(q).None? then None
            else Some(([EnumDecl(e.name, e.values)] + ParseDecls(q).value.0, ParseDecls(q).value.1))
  {
    hide Lex, ParseHead, ParseValues, V.Next;
  }

  // ---------------------------------------------------------------- messages

  /** The described field is the declared one. */
  predicate Matches(S: Schema, f: FieldDesc, fd: FieldDecl) {
    f.name == fd.name && f.list == fd.list && TypeName(S, f) == fd.tname
  }

  predicate AllMatch(S: Schema, fields: seq<FieldDesc>, decls: seq<FieldDecl>) {
    |fields| == |decls| && forall i :: 0 <= i < |fields| ==> Matches(S, fields[i], decls[i])
  }

  /** The type behind the colon, with or without brackets, and the comment. */
  lemma TypeText(tname: seq<byte>, text: seq<byte>, rest: seq<byte>)
    requires NameOK(tname) && NL !in text
    ensures var p := Lex([SPACE] + (tname + (Comment(text) + rest)));
            IsId(p.tok) && p.tok.s == tname && V.Next(p) == Lex(rest)
    ensures Lex([SPACE, LBRACKET, RBRACKET] + (tname + (Comment(text) + rest))).tok == Punct(LBRACKET)
    ensures var p := V.Next(Lex([SPACE, LBRACKET, RBRACKET] + (tname + (Comment(text) + rest))));
            && p.tok == Punct(RBRACKET)
            && IsId(V.Next(p).tok) && V.Next(p).tok.s == tname && V.Next(V.Next(p)) == Lex(rest)
  {
    hide Lex, SkipSpaces, IsName;
    var c := Comment(text) + rest;
    assert c[0] == SPACE;
    SpacedName(SPACE, tname, c);
    NameRoundTrip(tname, c);
    CommentSkipped(text, rest);
    var b := [RBRACKET] + (tname + c);
    assert [SPACE, LBRACKET, RBRACKET] + (tname + c) == [SPACE, LBRACKET] + b;
    SpacedPunct(SPACE, LBRACKET, b);
    PunctRoundTrip(RBRACKET, tname + c);
  }

  lemma {:induction false} FieldBack(S: Schema, f: FieldDesc, fd: FieldDecl, rest: seq<byte>)
    requires NameOK(fd.name) && NameOK(fd.tname) && Matches(S, f, fd)
    ensures ParseFields(Lex(FieldLine(S, f) + rest))
         == if ParseFields(Lex(rest)).SyntaxError? then SyntaxError
            else Parsed([fd] + ParseFields(Lex(rest)).v, ParseFields(Lex(rest)).p)
  {
    hide Lex, SkipSpaces, IsName, Dec, TypeName, ParseFields;
    var text := [PlaceLetter(f)] + Dec(f.tag0);
    NoBreaks(f.tag0);
    var c := Comment(text) + rest;
    var a := (if f.list then [SPACE, LBRACKET, RBRACKET] else [SPACE]) + (fd.tname + c);
    var t := [COLON] + a;
    assert FieldLine(S, f) + rest == [TAB] + (f.name + t);
    SpacedName(TAB, f.name, t);
    PunctRoundTrip(COLON, a);
    TypeText(fd.tname, text, rest);
    FieldStep(Lex(FieldLine(S, f) + rest), fd, Lex(a), Lex(rest));
  }

  lemma {:induction false} FieldStep(p: Pos, fd: FieldDecl, b: Pos, q: Pos)
    requires IsId(p.tok) && p.tok.s == fd.name && V.Next(p).tok == Punct(COLON) && V.Next(V.Next(p)) == b
    requires fd.list ==>
               && b.tok == Punct(LBRACKET) && V.Next(b).tok == Punct(RBRACKET)
               && var t := V.Next(V.Next(b)); IsId(t.tok) && t.tok.s == fd.tname && V.Next(t) == q
    requires !fd.list ==> IsId(b.tok) && b.tok.s == fd.tname && V.Next(b) == q
    ensures ParseFields(p)
         == if ParseFields(q).SyntaxError? then SyntaxError
            else Parsed([fd] + ParseFields(q).v, ParseFields(q).p)
  {
    hide Lex, V.Next;
  }

  lemma {:induction false} FieldsBack(S: Schema, fields: seq<FieldDesc>, decls: seq<FieldDecl>, rest: seq<byte>)
    requires FieldsOK(decls) && AllMatch(S, fields, decls) && !IsId(Lex(rest).tok)
    ensures ParseFields(Lex(FieldLines(S, fields) + rest)) == Parsed(decls, Lex(rest))
    decreases |fields|
  {
    hide Lex, FieldLine, NameOK, V.Next, Matches;
    if fields == [] {
      assert FieldLines(S, fields) + rest == rest;
      assert decls == [];
    } else {
      var more := FieldLines(S, fields[1..]) + rest;
      assert FieldLines(S, fields) + rest == FieldLine(S, fields[0]) + more;
      FieldsBack(S, fields[1..], decls[1..], rest);
      FieldBack(S, fields[0], decls[0], more);
      assert [decls[0]] + decls[1..] == decls;
    }
  }

  lemma SizesComment(d: MsgDesc) returns (text: seq<byte>)
    ensures text == [40] + Dec(d.ssize) + [115, 44, SPACE] + Dec(d.psize) + [112, 41] && NL !in text
  {
    NoBreaks(d.ssize);
    NoBreaks(d.psize);
    hide Dec;
    text := [40] + Dec(d.ssize) + [115, 44, SPACE] + Dec(d.psize) + [112, 41];
  }

  /** The text of one message, in front of further declarations. */
  lemma MsgBack(S: Schema, d: MsgDesc, md: MsgDecl, rest: seq<byte>)
    requires NameOK(md.name) && FieldsOK(md.fields) && d.name == md.name && AllMatch(S, d.fields, md.fields)
    ensures ParseDecls(Lex(MsgText(S, d) + rest))
         == if ParseDecls(Lex(rest)).None? then None
            else Some((ParseDecls(Lex(rest)).value.0, [md] + ParseDecls(Lex(rest)).value.1))
  {
    hide Lex, SkipSpaces, IsName, NameOK, ParseHead, ParseFields, FieldsOK, FieldLines, ParseDecls, AllMatch, Dec;
    hide Comment;
    var text := SizesComment(d);
    var c := [CLOSE] + (Comment(text) + rest);
    var body := FieldLines(S, d.fields) + c;
    var h := [SPACE] + (d.name + ([SPACE, OPEN, NL] + body));
    assert MsgText(S, d) + rest == [NL] + (K_MESSAGE + h);
    KeywordNames();
    SpacedName(NL, K_MESSAGE, h);
    HeadBack(d.name, body);
    PunctRoundTrip(CLOSE, Comment(text) + rest);
    FieldsBack(S, d.fields, md.fields, c);
    CommentSkipped(text, rest);
    MsgStep(Lex(MsgText(S, d) + rest), md, Lex(c), Lex(rest));
  }

  lemma {:induction false} MsgStep(p: Pos, md: MsgDecl, c: Pos, q: Pos)
    requires p.tok == Ident(K_MESSAGE) && ParseHead(V.Next(p)).Parsed? && ParseHead(V.Next(p)).v == md.name
    requires ParseFields(ParseHead(V.Next(p)).p) == Parsed(md.fields, c) && c.tok == Punct(CLOSE) && V.Next(c) == q
    ensures ParseDecls(p)
         == if ParseDecls(q).None? then None
            else Some((ParseDecls(q).value.0, [md] + ParseDecls(q).value.1))
  {
    hide Lex, ParseHead, ParseFields, V.Next;
  }

  // ---------------------------------------------------------------- all declarations

  predicate MsgsMatch(S: Schema, ds: seq<MsgDesc>, ms: seq<MsgDecl>) {
    && |ds| == |ms|
    && (forall i :: 0 <= i < |ds| ==> ds[i].name == ms[i].name && AllMatch(S, ds[i].fields, ms[i].fields))
  }

  lemma NothingLeft()
    ensures ParseDecls(Lex([])) == Some(([], []))
  {
    assert SkipSpaces([]) == [];
  }

  lemma {:induction false} MsgsBack(S: Schema, ds: seq<MsgDesc>, ms: seq<MsgDecl>)
    requires DeclsOK([], ms) && MsgsMatch(S, ds, ms)
    ensures ParseDecls(Lex(MsgTexts(S, ds))) == Some(([], ms))
    decreases |ds|
  {
    hide Lex, MsgText, NameOK, FieldsOK, AllMatch, ParseDecls;
    if ds == [] {
      NothingLeft();
    } else {
      MsgsBack(S, ds[1..], ms[1..]);
      MsgBack(S, ds[0], ms[0], MsgTexts(S, ds[1..]));
      assert [ms[0]] + ms[1..] == ms;
    }
  }

  predicate EnumsMatch(es: seq<EnumType>, ds: seq<EnumDecl>) {
    |es| == |ds| && forall i :: 0 <= i < |es| ==> es[i].name == ds[i].name && es[i].values == ds[i].values
  }

  lemma {:induction false} EnumsBack(es: seq<EnumType>, ds: seq<EnumDecl>, ms: seq<MsgDecl>, tail: seq<byte>)
    requires DeclsOK(ds, []) && EnumsMatch(es, ds)
    requires ParseDecls(Lex(tail)) == Some(([], ms))
    ensures ParseDecls(Lex(EnumTexts(es) + tail)) == Some((ds, ms))
    decreases |es|
  {
    hide Lex, EnumText, NameOK, ValuesOK, ParseDecls;
    if es == [] {
      assert EnumTexts(es) + tail == tail;
    } else {
      EnumsBack(es[1..], ds[1..], ms, tail);
      EnumBack(es[0], EnumTexts(es[1..]) + tail);
      assert EnumTexts(es) + tail == EnumText(es[0]) + (EnumTexts(es[1..]) + tail);
      assert [EnumDecl(ds[0].name, ds[0].values)] + ds[1..] == ds;
    }
  }

  // ---------------------------------------------------------------- types by name

  lemma Digits()
    ensures Dec(8) == [56] && Dec(16) == [49, 54] && Dec(32) == [51, 50] && Dec(64) == [54, 52]
  {
  }

  /** A built-in type is printed by its name. */
  lemma BuiltinName(S: Schema, fd: FieldDecl, i: nat, tag: nat)
    requires i < 12
    ensures TypeName(S, Described(fd, BUILTINS[i], tag)) == BUILTINS[i].name
  {
    hide Dec;
    Digits();
    var e := BUILTINS[i];
    if i == 0 {
    } else if i <= 4 {
      assert e.kind == INT && Described(fd, e, tag).tag1 == e.size;
    } else if i <= 8 {
      assert e.kind == UINT && Described(fd, e, tag).tag1 == e.size;
    } else if i <= 10 {
      assert e.kind == FLOAT && Described(fd, e, tag).tag1 == e.size;
    } else {
      assert e.kind == STR;
    }
  }

  /** The name printed for a field's type is the name it was declared with. */
  lemma TypeNameBack(src: Source, S: Schema, fd: FieldDecl, tag: nat)
    requires Compile(src) == Some(S) && Find(Table(src), fd.tname).Some?
    ensures TypeName(S, Described(fd, Find(Table(src), fd.tname).value, tag)) == fd.tname
  {
    hide Dec, Compile, Sizes, TypeName, Described, Table;
    var t := Table(src);
    var e := Find(t, fd.tname).value;
    var i :| 0 <= i < |t| && t[i] == e;
    if i < 12 {
      BuiltinName(S, fd, i, tag);
    } else if i < 12 + |src.enums| {
      assert t[12 + (i - 12)] == e;
      EnumNames(src, S, i - 12);
      DeclaredName(S, fd, e, tag);
    } else {
      var n := i - 12 - |src.enums|;
      assert t[12 + |src.enums| + n] == e;
      MsgName(src, S, n);
      DeclaredName(S, fd, e, tag);
    }
  }

  lemma EnumNames(src: Source, S: Schema, n: nat)
    requires Compile(src) == Some(S) && n < |src.enums|
    ensures |S.enums| == |src.enums| && S.enums[n].name == src.enums[n].name
  {
    hide CompileTypes, Sizes, Distinct;
  }

  lemma DeclaredName(S: Schema, fd: FieldDecl, e: Entry, tag: nat)
    requires e.kind == ENUM ==> e.id < |S.enums| && S.enums[e.id].name == e.name
    requires e.kind == PTR ==> e.id < |S.msgs| && S.msgs[e.id].name == e.name
    requires e.kind == ENUM || e.kind == PTR
    ensures TypeName(S, Described(fd, e, tag)) == e.name
  {
    hide Dec;
  }

  lemma MsgName(src: Source, S: Schema, n: nat)
    requires Compile(src) == Some(S) && n < |src.msgs|
    ensures |S.msgs| == |src.msgs| && S.msgs[n].name == src.msgs[n].name
  {
    hide CompileType, Sizes, Resolved, Compiled;
    TableSizes(src);
    var a := TypeCompiled(Table(src), src.msgs, 0, n);
    NameKept(Table(src), src.msgs[n], a);
  }

  lemma NameKept(t: seq<Entry>, m: MsgDecl, align: nat)
    requires Sizes(t) && Resolved(t, m.fields) && align in {0, 1, 2, 4, 8}
    ensures var d := CompileType(t, m, align).0;
            && d.name == m.name && |d.fields| == |m.fields|
            && forall i :: 0 <= i < |m.fields| ==>
                 d.fields[i] == Described(m.fields[i], Find(t, m.fields[i].tname).value, d.fields[i].tag0)
  {
    hide CompileMsg, ValidFields, LayFields, Sizes, Need;
  }

  lemma AllMatchIn(src: Source, S: Schema, n: nat)
    requires Compile(src) == Some(S) && n < |src.msgs| && |S.msgs| == |src.msgs|
    ensures AllMatch(S, S.msgs[n].fields, src.msgs[n].fields)
  {
    hide CompileType, Sizes, Compiled, TypeName, Described;
    TableSizes(src);
    var t, md := Table(src), src.msgs[n];
    assert Resolved(t, md.fields);
    var a := TypeCompiled(t, src.msgs, 0, n);
    NameKept(t, md, a);
    var fs := S.msgs[n].fields;
    forall i | 0 <= i < |fs|
      ensures Matches(S, fs[i], md.fields[i])
    {
      TypeNameBack(src, S, md.fields[i], fs[i].tag0);
      DescribedName(md.fields[i], Find(t, md.fields[i].tname).value, fs[i].tag0);
    }
  }

  lemma DescribedName(fd: FieldDecl, e: Entry, tag: nat)
    ensures Described(fd, e, tag).name == fd.name && Described(fd, e, tag).list == fd.list
  {
  }

  lemma Matching(src: Source, S: Schema)
    requires Compile(src) == Some(S)
    ensures S.pkg == src.pkg && EnumsMatch(S.enums, src.enums) && MsgsMatch(S, S.msgs, src.msgs)
  {
    hide CompileTypes, Sizes, AllMatch;
    forall i | 0 <= i < |src.msgs|
      ensures |S.msgs| == |src.msgs| && S.msgs[i].name == src.msgs[i].name
      ensures AllMatch(S, S.msgs[i].fields, src.msgs[i].fields)
    {
      MsgName(src, S, i);
      AllMatchIn(src, S, i);
    }
  }

  // ---------------------------------------------------------------- whole schemas

  lemma PackageBack(pkg: seq<byte>, rest: seq<byte>)
    requires NameOK(pkg)
    ensures var p := Lex(K_PACKAGE + [SPACE] + pkg + [NL] + rest);
            && p.tok == Ident(K_PACKAGE) && IsId(V.Next(p).tok) && V.Next(p).tok.s == pkg
            && V.Next(V.Next(p)) == Lex(rest)
  {
    hide Lex, SkipSpaces, IsName;
    var b := [SPACE] + (pkg + ([NL] + rest));
    assert K_PACKAGE + [SPACE] + pkg + [NL] + rest == K_PACKAGE + b;
    KeywordNames();
    NameRoundTrip(K_PACKAGE, b);
    SpacedName(SPACE, pkg, [NL] + rest);
    Spaced(NL, rest);
  }

  lemma NotPackage(p: Pos)
    requires ParseDecls(p).Some?
    ensures p.tok != Ident(K_PACKAGE)
  {
    KeywordNames();
  }

  /** Printing a compiled schema and parsing the text gives its source back. */
  lemma SourceBack(src: Source, S: Schema)
    requires WellNamed(src) && Compile(src) == Some(S)
    ensures ParseSchema(PrintSchema(S)) == Some(src)
  {
    hide Lex, NameOK, ValuesOK, FieldsOK, ParseDecls, Compile, EnumTexts, MsgTexts, EnumsMatch, MsgsMatch, V.Next, IsId;
    Matching(src, S);
    MsgsBack(S, S.msgs, src.msgs);
    EnumsBack(S.enums, src.enums, src.msgs, MsgTexts(S, S.msgs));
    var decls := EnumTexts(S.enums) + MsgTexts(S, S.msgs);
    if src.pkg == [] {
      assert PrintSchema(S) == decls;
      NotPackage(Lex(decls));
    } else {
      assert PrintSchema(S) == K_PACKAGE + [SPACE] + S.pkg + [NL] + decls;
      PackageBack(src.pkg, decls);
    }
  }

  /** For every schema text that parses and compiles: decompiling the result gives a text that parses to
      the same source and compiles to the same schema, offsets and sizes included. */
  lemma SchemaRoundTrip(input: seq<byte>, S: Schema)
    requires ParseSchema(input).Some? && Compile(ParseSchema(input).value) == Some(S)
    ensures ParseSchema(PrintSchema(S)) == ParseSchema(input)
    ensures Compile(ParseSchema(PrintSchema(S)).value) == Some(S)
  {
    hide Compile, ParseSchema, PrintSchema, WellNamed;
    SourceNamed(input);
    SourceBack(ParseSchema(input).value, S);
  }

  /** The messages of a compiled schema have disjoint, aligned fields inside their elements, so messages of
      the schema can be printed and parsed. */
  lemma CompiledSchemaOK(src: Source, S: Schema)
    requires Compile(src) == Some(S)
    requires forall i :: 0 <= i < |S.msgs| ==> S.msgs[i].ssize < 0x1_0000 && S.msgs[i].psize < 0x1_0000
    requires forall i, j :: 0 <= i < |S.msgs| && 0 <= j < |S.msgs[i].fields| ==> S.msgs[i].fields[j].kind != FLOAT
    ensures SchemaOK(S)
  {
    hide CompileTypes, Sizes, LaidOut, Resolved, Compiled;
    TableSizes(src);
    forall i | 0 <= i < |S.msgs|
      ensures MsgOK(S, S.msgs[i])
    {
      var a := TypeCompiled(Table(src), src.msgs, 0, i);
      CompiledLaidOut(S.msgs[i], a);
      forall j | 0 <= j < |S.msgs[i].fields|
        ensures FieldOK(S, S.msgs[i].fields[j])
      {
        FieldTagOK(src, S, i, j);
      }
    }
  }

  lemma FieldTagOK(src: Source, S: Schema, n: nat, j: nat)
    requires Compile(src) == Some(S) && n < |S.msgs| && j < |S.msgs[n].fields|
    requires S.msgs[n].fields[j].kind != FLOAT
    ensures FieldOK(S, S.msgs[n].fields[j])
  {
    hide CompileType, Sizes, Compiled;
    TableSizes(src);
    var t, md := Table(src), src.msgs[n];
    assert Resolved(t, md.fields);
    var a := TypeCompiled(t, src.msgs, 0, n);
    NameKept(t, md, a);
    EntryFieldOK(src, S, md.fields[j], Find(t, md.fields[j].tname).value, S.msgs[n].fields[j].tag0);
  }

  lemma EntryFieldOK(src: Source, S: Schema, fd: FieldDecl, e: Entry, tag: nat)
    requires e in Table(src) && |S.enums| == |src.enums| && |S.msgs| == |src.msgs| && e.kind != FLOAT
    ensures FieldOK(S, Described(fd, e, tag))
  {
    var t := Table(src);
    TableSizes(src);
    var i :| 0 <= i < |t| && t[i] == e;
    assert EntryOK(t[i]);
    if i < 12 {
      BuiltinKinds(i);
    } else if i < 12 + |src.enums| {
      assert t[12 + (i - 12)] == Entry(src.enums[i - 12].name, ENUM, 2, i - 12);
    } else {
      var n := i - 12 - |src.enums|;
      assert t[12 + |src.enums| + n] == Entry(src.msgs[n].name, PTR, 4, n);
    }
  }

  lemma BuiltinKinds(i: nat)
    requires i < 12
    ensures BUILTINS[i].kind != ENUM && BUILTINS[i].kind != PTR
  {
    assert BUILTINS[0].kind == BOOL && BUILTINS[9].kind == FLOAT;
    assert BUILTINS[10].kind == FLOAT && BUILTINS[11].kind == STR;
  }
}
