/** Schemas from the writer's side: every way to write one (nbufc/nbuf.y) and what it declares, which of them
    compile (nbufc/t2b.c), and what a decompiled one looks like (nbufc/b2t.c). */
module SchemaForms {
  import opened Bytes
  import opened Lexer
  import opened Schemas
  import opened Names
  import opened SchemaText
  import K = Tokens
  import G = Grammar
  import W = TextLines
  import V = ValueParser
  import C = SchemaCompiler
  import X = Lexemes

  // ---------------------------------------------------------------- what is written

  /** An enum constant, with a value of its own or without. */
  datatype Item = Item(name: seq<byte>, given: Option<int>)

  /** A declaration as it is written; an enum comes with the values that its constants get. */
  datatype Form =
    | EnumForm(name: seq<byte>, items: seq<Item>, values: seq<EnumDesc>)
    | MsgForm(name: seq<byte>, fields: seq<FieldDecl>)

  /** An identifier that is no keyword. */
  predicate Id(name: seq<byte>) {
    K.IsName(name) && name != Ascii("package") && name != Ascii("enum") && name != Ascii("message")
  }

  /** A constant gets the given value, cut to 16 bits; without one it gets `next`. */
  predicate Gets(item: Item, v: EnumDesc, next: nat) {
    && v.name == item.name
    && match item.given
       case Some(n) => G.Residue(n, 0, 65536, v.value)
       case None => v.value == next
  }

  /** Constants without a value go on from their predecessors, the first one from `next`. */
  predicate Numbered(items: seq<Item>, values: seq<EnumDesc>, next: nat) {
    |values| == |items| && forall i :: 0 <= i < |items| ==> Gets(items[i], values[i], Onwards(values, i, next))
  }

  function Onwards(values: seq<EnumDesc>, i: nat, next: nat): nat
    requires i <= |values|
  {
    if i == 0 then next else (values[i - 1].value + 1) % 65536
  }

  predicate ValidItem(item: Item) {
    Id(item.name) && (item.given.Some? ==> -9223372036854775808 <= item.given.value <= 18446744073709551615)
  }

  predicate ValidForm(d: Form) {
    && Id(d.name)
    && match d
       case EnumForm(_, items, values) =>
         Numbered(items, values, 0) && forall i :: 0 <= i < |items| ==> ValidItem(items[i])
       case MsgForm(_, fields) => forall i :: 0 <= i < |fields| ==> Id(fields[i].name) && Id(fields[i].tname)
  }

  function ItemText(item: Item, gap: seq<byte>): seq<byte> {
    item.name + gap + match item.given
                      case Some(n) => Ascii("=") + gap + W.Decimal(n) + gap
                      case None => []
  }

  function ItemsText(items: seq<Item>, gap: seq<byte>): seq<byte> {
    if items == [] then [] else ItemText(items[0], gap) + ItemsText(items[1..], gap)
  }

  function FieldText(f: FieldDecl, gap: seq<byte>): seq<byte> {
    f.name + gap + Ascii(":") + gap + (if f.list then Ascii("[") + gap + Ascii("]") + gap else []) + f.tname + gap
  }

  function FieldsText(fields: seq<FieldDecl>, gap: seq<byte>): seq<byte> {
    if fields == [] then [] else FieldText(fields[0], gap) + FieldsText(fields[1..], gap)
  }

  function FormText(d: Form, gap: seq<byte>): seq<byte> {
    (if d.EnumForm? then Ascii("enum") else Ascii("message")) + gap + d.name + gap + Ascii("{") + gap
    + (match d
       case EnumForm(_, items, _) => ItemsText(items, gap)
       case MsgForm(_, fields) => FieldsText(fields, gap))
    + Ascii("}") + gap
  }

  function FormsText(ds: seq<Form>, gap: seq<byte>): seq<byte> {
    if ds == [] then [] else FormText(ds[0], gap) + FormsText(ds[1..], gap)
  }

  /** A whole schema; the package is optional. */
  function SourceText(pkg: Option<seq<byte>>, ds: seq<Form>, gap: seq<byte>): seq<byte> {
    (if pkg.Some? then Ascii("package") + gap + pkg.value + gap else []) + FormsText(ds, gap)
  }

  /** The enums and the messages that are declared, each in the order of the text. */
  function Enums(ds: seq<Form>): seq<EnumDecl> {
    if ds == [] then []
    else (if ds[0].EnumForm? then [EnumDecl(ds[0].name, ds[0].values)] else []) + Enums(ds[1..])
  }

  function Msgs(ds: seq<Form>): seq<MsgDecl> {
    if ds == [] then []
    else (if ds[0].MsgForm? then [MsgDecl(ds[0].name, ds[0].fields)] else []) + Msgs(ds[1..])
  }

  // ---------------------------------------------------------------- reading it

  lemma IdToken(name: seq<byte>)
    requires Id(name)
    ensures IsId(Ident(name)) && K.IsName(name)
  {
    Keywords();
  }

  lemma Keywords()
    ensures K_PACKAGE == Ascii("package") && K_ENUM == Ascii("enum") && K_MESSAGE == Ascii("message")
    ensures K.IsName(K_PACKAGE) && K.IsName(K_ENUM) && K.IsName(K_MESSAGE)
    ensures K_PACKAGE != K_ENUM && K_ENUM != K_MESSAGE && K_PACKAGE != K_MESSAGE
  {
    assert K_PACKAGE[0] != K_ENUM[0] && K_PACKAGE[0] != K_MESSAGE[0] && K_ENUM[0] != K_MESSAGE[0];
  }

  /** A name or keyword, white space, and what follows. */
  lemma WordLex(name: seq<byte>, gap: seq<byte>, tail: seq<byte>)
    requires K.IsName(name) && G.Gap(gap)
    ensures V.Next(Lex(name + (gap + tail))) == Lex(tail)
    ensures Lex(name + (gap + tail)).tok == Ident(name)
  {
    hide Lex, G.Gap, K.IsName;
    G.NameLex(name, gap, tail);
    G.GapLex(gap, tail);
  }

  lemma SignLex(c: byte, gap: seq<byte>, tail: seq<byte>)
    requires c in {COLON, OPEN, CLOSE, EQUALS, LBRACKET, RBRACKET} && G.Gap(gap)
    ensures V.Next(Lex([c] + (gap + tail))) == Lex(tail)
    ensures Lex([c] + (gap + tail)).tok == Punct(c)
  {
    hide Lex, G.Gap;
    K.PunctRoundTrip(c, gap + tail);
    G.GapLex(gap, tail);
  }

  lemma Signs()
    ensures Ascii(":") == [COLON] && Ascii("{") == [OPEN] && Ascii("}") == [CLOSE]
    ensures Ascii("=") == [EQUALS] && Ascii("[") == [LBRACKET] && Ascii("]") == [RBRACKET]
  {
  }

  /** A number, white space, and what follows. */
  lemma NumberLex(n: int, gap: seq<byte>, tail: seq<byte>) returns (v: int)
    requires G.Gap(gap) && -9223372036854775808 <= n <= 18446744073709551615
    ensures V.Next(Lex(W.Decimal(n) + (gap + tail))) == Lex(tail)
    ensures Lex(W.Decimal(n) + (gap + tail)).tok == Int(v)
    ensures forall k :: G.Residue(n, 0, 65536, k) ==> v % 65536 == k
  {
    hide Lex, G.Gap;
    v := if n < I63 then n else n - I64;
    W.IntIs(n);
    G.GapLex(gap, tail);
    K.NumberRoundTrip(n, gap + tail);
    forall k | G.Residue(n, 0, 65536, k)
      ensures v % 65536 == k
    {
      G.WordResidue(n, 0, 65536, k);
      G.ResidueMod(v, 65536, k);
    }
  }

  /** Where the next constant without a value would go on. */
  function NextValue(values: seq<EnumDesc>, next: nat): nat {
    Onwards(values, |values|, next)
  }

  /** Constants, and whatever follows them. */
  lemma {:induction false} ItemsThen(items: seq<Item>, values: seq<EnumDesc>, next: nat, gap: seq<byte>,
      rest: seq<byte>)
    requires Numbered(items, values, next) && (forall i :: 0 <= i < |items| ==> ValidItem(items[i]))
    requires G.Gap(gap) && Lex(rest).tok != Punct(EQUALS)
    ensures var r := ParseValues(Lex(rest), NextValue(values, next));
            ParseValues(Lex(ItemsText(items, gap) + rest), next)
            == if r.SyntaxError? then SyntaxError else Parsed(values + r.v, r.p)
    decreases |items|
  {
    hide Lex, G.Gap, ItemText, IsId, Id, Gets, ParseValues, NextValue;
    NextIs(values, next);
    var r := ParseValues(Lex(rest), NextValue(values, next));
    if items == [] {
      assert ItemsText(items, gap) + rest == rest;
      if r.Parsed? {
        assert values + r.v == r.v;
      }
    } else {
      var more := ItemsText(items[1..], gap) + rest;
      assert ItemsText(items, gap) + rest == ItemText(items[0], gap) + more;
      assert ValidItem(items[0]);
      hide ItemsText, ValidItem;
      LaterNumbered(items, values, next);
      ItemsThen(items[1..], values[1..], (values[0].value + 1) % 65536, gap, rest);
      NotEquals(items[1..], gap, rest);
      ItemReads(items[0], values[0], next, gap, more);
      hide Numbered;
      if r.Parsed? {
        FrontBack(values, r.v);
      }
    }
  }

  lemma NextIs(values: seq<EnumDesc>, next: nat)
    ensures values == [] ==> NextValue(values, next) == next
    ensures values != [] ==> NextValue(values[1..], (values[0].value + 1) % 65536) == NextValue(values, next)
  {
  }

  lemma FrontBack<T>(x: seq<T>, y: seq<T>)
    requires x != []
    ensures [x[0]] + (x[1..] + y) == x + y
  {
  }

  lemma ItemsRead(items: seq<Item>, values: seq<EnumDesc>, gap: seq<byte>, rest: seq<byte>)
    requires Numbered(items, values, 0) && (forall i :: 0 <= i < |items| ==> ValidItem(items[i]))
    requires G.Gap(gap) && !IsId(Lex(rest).tok) && Lex(rest).tok != Punct(EQUALS)
    ensures ParseValues(Lex(ItemsText(items, gap) + rest), 0) == Parsed(values, Lex(rest))
  {
    hide Lex, G.Gap, ItemsText, IsId, Numbered, ValidItem;
    ItemsThen(items, values, 0, gap, rest);
    NoId(rest, NextValue(values, 0));
    assert values + [] == values;
  }

  lemma NoId(rest: seq<byte>, next: nat)
    requires !IsId(Lex(rest).tok)
    ensures ParseValues(Lex(rest), next) == Parsed([], Lex(rest)) && ParseFields(Lex(rest)) == Parsed([], Lex(rest))
  {
    hide Lex;
  }

  lemma LaterNumbered(items: seq<Item>, values: seq<EnumDesc>, next: nat)
    requires Numbered(items, values, next) && items != []
    ensures Numbered(items[1..], values[1..], (values[0].value + 1) % 65536) && Gets(items[0], values[0], next)
  {
    hide Gets;
    assert Gets(items[0], values[0], Onwards(values, 0, next));
    forall i | 0 <= i < |items| - 1
      ensures Gets(items[1..][i], values[1..][i], Onwards(values[1..], i, (values[0].value + 1) % 65536))
    {
      assert Gets(items[i + 1], values[i + 1], Onwards(values, i + 1, next));
    }
  }

  /** What follows a constant is no equals sign. */
  lemma NotEquals(items: seq<Item>, gap: seq<byte>, rest: seq<byte>)
    requires (forall i :: 0 <= i < |items| ==> ValidItem(items[i])) && G.Gap(gap) && Lex(rest).tok != Punct(EQUALS)
    ensures Lex(ItemsText(items, gap) + rest).tok != Punct(EQUALS)
  {
    hide Lex, G.Gap, K.IsName, ItemText;
    if items == [] {
      assert ItemsText(items, gap) + rest == rest;
    } else {
      assert ValidItem(items[0]);
      var tail := ItemFront(items[0], gap, ItemsText(items[1..], gap) + rest);
      assert ItemsText(items, gap) + rest == ItemText(items[0], gap) + (ItemsText(items[1..], gap) + rest);
      WordLex(items[0].name, gap, tail);
    }
  }

  lemma ItemFront(item: Item, gap: seq<byte>, more: seq<byte>) returns (tail: seq<byte>)
    ensures ItemText(item, gap) + more == item.name + (gap + tail)
  {
    hide Ascii, W.Decimal;
    var given := match item.given
                 case Some(n) => Ascii("=") + gap + W.Decimal(n) + gap
                 case None => [];
    tail := given + more;
  }

  /** One constant. */
  lemma {:induction false} ItemReads(item: Item, v: EnumDesc, next: nat, gap: seq<byte>, more: seq<byte>)
    requires ValidItem(item) && Gets(item, v, next) && G.Gap(gap) && Lex(more).tok != Punct(EQUALS)
    ensures var r := ParseValues(Lex(more), (v.value + 1) % 65536);
            ParseValues(Lex(ItemText(item, gap) + more), next)
            == if r.SyntaxError? then SyntaxError else Parsed([v] + r.v, r.p)
  {
    hide Lex, G.Gap, G.Residue, W.Decimal, V.Next, Id, K.IsName, IsId;
    IdToken(item.name);
    Signs();
    hide Ascii;
    match item.given
    case None =>
      assert ItemText(item, gap) + more == item.name + (gap + more);
      WordLex(item.name, gap, more);
      ImplicitStep(Lex(ItemText(item, gap) + more), v, next);
    case Some(n) =>
      var num := W.Decimal(n) + (gap + more);
      var eq := [EQUALS] + (gap + num);
      assert ItemText(item, gap) + more == item.name + (gap + eq);
      WordLex(item.name, gap, eq);
      SignLex(EQUALS, gap, num);
      var k := NumberLex(n, gap, more);
      GivenStep(Lex(ItemText(item, gap) + more), v, next, k);
  }

  lemma {:induction false} ImplicitStep(p: Pos, v: EnumDesc, next: nat)
    requires IsId(p.tok) && p.tok == Ident(v.name) && V.Next(p).tok != Punct(EQUALS) && v.value == next
    ensures var r := ParseValues(V.Next(p), (v.value + 1) % 65536);
            ParseValues(p, next) == if r.SyntaxError? then SyntaxError else Parsed([v] + r.v, r.p)
  {
    hide Lex;
  }

  lemma {:induction false} GivenStep(p: Pos, v: EnumDesc, next: nat, k: int)
    requires IsId(p.tok) && p.tok == Ident(v.name) && V.Next(p).tok == Punct(EQUALS)
    requires V.Next(V.Next(p)).tok == Int(k) && v.value == k % 65536
    ensures var r := ParseValues(V.Next(V.Next(V.Next(p))), (v.value + 1) % 65536);
            ParseValues(p, next) == if r.SyntaxError? then SyntaxError else Parsed([v] + r.v, r.p)
  {
    hide Lex;
  }

  /** One field. */
  lemma {:induction false} FieldReads(f: FieldDecl, gap: seq<byte>, more: seq<byte>)
    requires Id(f.name) && Id(f.tname) && G.Gap(gap)
    ensures var r := ParseFields(Lex(more));
            ParseFields(Lex(FieldText(f, gap) + more))
            == if r.SyntaxError? then SyntaxError else Parsed([f] + r.v, r.p)
  {
    hide Lex, G.Gap, V.Next, Id, K.IsName, IsId;
    IdToken(f.name);
    IdToken(f.tname);
    Signs();
    hide Ascii;
    var typ := f.tname + (gap + more);
    var close := [RBRACKET] + (gap + typ);
    var open := [LBRACKET] + (gap + close);
    var spec := if f.list then open else typ;
    var colon := [COLON] + (gap + spec);
    assert FieldText(f, gap) + more == f.name + (gap + colon);
    WordLex(f.name, gap, colon);
    SignLex(COLON, gap, spec);
    WordLex(f.tname, gap, more);
    SignLex(LBRACKET, gap, close);
    SignLex(RBRACKET, gap, typ);
    FieldStep(Lex(FieldText(f, gap) + more), f, Lex(more));
  }

  lemma {:induction false} FieldStep(p: Pos, f: FieldDecl, more: Pos)
    requires IsId(p.tok) && p.tok == Ident(f.name) && IsId(Ident(f.tname)) && V.Next(p).tok == Punct(COLON)
    requires var b := V.Next(V.Next(p));
             if f.list then
               b.tok == Punct(LBRACKET) && V.Next(b).tok == Punct(RBRACKET)
               && V.Next(V.Next(b)).tok == Ident(f.tname) && V.Next(V.Next(V.Next(b))) == more
             else b.tok == Ident(f.tname) && V.Next(b) == more
    ensures var r := ParseFields(more);
            ParseFields(p) == if r.SyntaxError? then SyntaxError else Parsed([f] + r.v, r.p)
  {
    hide Lex;
  }

  /** Fields, and whatever follows them. */
  lemma {:induction false} FieldsThen(fields: seq<FieldDecl>, gap: seq<byte>, rest: seq<byte>)
    requires forall i :: 0 <= i < |fields| ==> Id(fields[i].name) && Id(fields[i].tname)
    requires G.Gap(gap)
    ensures var r := ParseFields(Lex(rest));
            ParseFields(Lex(FieldsText(fields, gap) + rest))
            == if r.SyntaxError? then SyntaxError else Parsed(fields + r.v, r.p)
    decreases |fields|
  {
    hide Lex, G.Gap, FieldText, IsId, Id;
    var r := ParseFields(Lex(rest));
    if fields == [] {
      assert FieldsText(fields, gap) + rest == rest;
      assert r.Parsed? ==> fields + r.v == r.v;
    } else {
      var more := FieldsText(fields[1..], gap) + rest;
      assert FieldsText(fields, gap) + rest == FieldText(fields[0], gap) + more;
      FieldsThen(fields[1..], gap, rest);
      FieldReads(fields[0], gap, more);
      hide ParseFields, FieldsText;
      if r.Parsed? {
        FrontBack(fields, r.v);
      }
    }
  }

  lemma FieldsRead(fields: seq<FieldDecl>, gap: seq<byte>, rest: seq<byte>)
    requires forall i :: 0 <= i < |fields| ==> Id(fields[i].name) && Id(fields[i].tname)
    requires G.Gap(gap) && !IsId(Lex(rest).tok)
    ensures ParseFields(Lex(FieldsText(fields, gap) + rest)) == Parsed(fields, Lex(rest))
  {
    hide Lex, G.Gap, FieldsText, IsId, Id;
    FieldsThen(fields, gap, rest);
    NoId(rest, 0);
    assert fields + [] == fields;
  }

  lemma CloseIsNoId()
    ensures !IsId(Punct(CLOSE))
  {
  }

  // ---------------------------------------------------------------- declarations

  /** Declarations, and whatever follows them. */
  lemma {:induction false} FormsThen(ds: seq<Form>, gap: seq<byte>, rest: seq<byte>)
    requires (forall i :: 0 <= i < |ds| ==> ValidForm(ds[i])) && G.Gap(gap)
    ensures var r := ParseDecls(Lex(rest));
            ParseDecls(Lex(FormsText(ds, gap) + rest))
            == if r.None? then None else Some((Enums(ds) + r.value.0, Msgs(ds) + r.value.1))
    ensures ds != [] ==> Lex(FormsText(ds, gap) + rest).tok != Ident(K_PACKAGE)
    decreases |ds|
  {
    hide Lex, G.Gap, FormText, ValidForm;
    var r := ParseDecls(Lex(rest));
    if ds == [] {
      assert FormsText(ds, gap) + rest == rest;
      assert r.Some? ==> [] + r.value.0 == r.value.0 && [] + r.value.1 == r.value.1;
    } else {
      var more := FormsText(ds[1..], gap) + rest;
      assert FormsText(ds, gap) + rest == FormText(ds[0], gap) + more;
      assert ValidForm(ds[0]);
      FormsThen(ds[1..], gap, rest);
      FormReads(ds[0], gap, more);
      hide ParseDecls, FormsText;
      if r.Some? {
        AllDeclared(ds, r.value.0, r.value.1);
      }
    }
  }

  lemma {:induction false} AllDeclared(ds: seq<Form>, es: seq<EnumDecl>, ms: seq<MsgDecl>)
    requires ds != []
    ensures var d, x, y := ds[0], Enums(ds[1..]) + es, Msgs(ds[1..]) + ms;
            && Enums(ds) + es == (if d.EnumForm? then [EnumDecl(d.name, d.values)] + x else x)
            && Msgs(ds) + ms == (if d.MsgForm? then [MsgDecl(d.name, d.fields)] + y else y)
  {
    var d := ds[0];
    if d.EnumForm? {
      Regroup([EnumDecl(d.name, d.values)], Enums(ds[1..]), es);
      Regroup([], Msgs(ds[1..]), ms);
    } else {
      Regroup([], Enums(ds[1..]), es);
      Regroup([MsgDecl(d.name, d.fields)], Msgs(ds[1..]), ms);
    }
  }

  lemma Regroup<T>(x: seq<T>, y: seq<T>, z: seq<T>)
    ensures (x + y) + z == x + (y + z) && (x == [] ==> x + (y + z) == y + z)
  {
  }

  lemma FormsRead(ds: seq<Form>, gap: seq<byte>)
    requires (forall i :: 0 <= i < |ds| ==> ValidForm(ds[i])) && G.Gap(gap)
    ensures ParseDecls(Lex(FormsText(ds, gap))) == Some((Enums(ds), Msgs(ds)))
    ensures Lex(FormsText(ds, gap)).tok != Ident(K_PACKAGE)
  {
    hide Lex, G.Gap, ValidForm, FormText, ParseDecls, Enums, Msgs;
    NothingThere();
    FormsThen(ds, gap, []);
    assert FormsText(ds, gap) + [] == FormsText(ds, gap);
    assert Enums(ds) + [] == Enums(ds) && Msgs(ds) + [] == Msgs(ds);
  }

  lemma NothingThere()
    ensures Lex([]).tok == Eof && ParseDecls(Lex([])) == Some(([], []))
  {
  }

  /** One declaration. */
  lemma {:induction false} FormReads(d: Form, gap: seq<byte>, more: seq<byte>)
    requires ValidForm(d) && G.Gap(gap)
    ensures var p, r := Lex(FormText(d, gap) + more), ParseDecls(Lex(more));
            && p.tok != Ident(K_PACKAGE)
            && ParseDecls(p)
               == if r.None? then None
                  else if d.EnumForm? then Some(([EnumDecl(d.name, d.values)] + r.value.0, r.value.1))
                  else Some((r.value.0, [MsgDecl(d.name, d.fields)] + r.value.1))
  {
    hide Lex, G.Gap, V.Next, Id, K.IsName, IsId, ItemsText, FieldsText, FormText, Numbered, ValidItem, ParseDecls;
    hide ParseValues, ParseFields, Ascii;
    Keywords();
    IdToken(d.name);
    var close := [CLOSE] + (gap + more);
    var body := if d.EnumForm? then ItemsText(d.items, gap) else FieldsText(d.fields, gap);
    var key := if d.EnumForm? then K_ENUM else K_MESSAGE;
    var open := [OPEN] + (gap + (body + close));
    var head := d.name + (gap + open);
    FormFront(d, gap, more, body, key);
    WordLex(key, gap, head);
    WordLex(d.name, gap, open);
    SignLex(OPEN, gap, body + close);
    SignLex(CLOSE, gap, more);
    var p := Lex(key + (gap + head));
    if d.EnumForm? {
      CloseIsNoId();
      ItemsRead(d.items, d.values, gap, close);
      EnumStep(p, d.name, d.values, Lex(close));
    } else {
      CloseIsNoId();
      FieldsRead(d.fields, gap, close);
      MsgStep(p, d.name, d.fields, Lex(close));
    }
  }

  lemma FormFront(d: Form, gap: seq<byte>, more: seq<byte>, body: seq<byte>, key: seq<byte>)
    requires body == if d.EnumForm? then ItemsText(d.items, gap) else FieldsText(d.fields, gap)
    requires key == if d.EnumForm? then Ascii("enum") else Ascii("message")
    ensures FormText(d, gap) + more
         == key + (gap + (d.name + (gap + ([OPEN] + (gap + (body + ([CLOSE] + (gap + more))))))))
  {
    hide ItemsText, FieldsText;
    Signs();
    hide Ascii;
  }

  lemma {:induction false} EnumStep(p: Pos, name: seq<byte>, values: seq<EnumDesc>, close: Pos)
    requires p.tok == Ident(K_ENUM) && V.Next(p).tok == Ident(name) && IsId(Ident(name))
    requires V.Next(V.Next(p)).tok == Punct(OPEN)
    requires ParseValues(V.Next(V.Next(V.Next(p))), 0) == Parsed(values, close)
    ensures var r := ParseDecls(V.Next(close));
            ParseDecls(p) == if close.tok != Punct(CLOSE) || r.None? then None
                             else Some(([EnumDecl(name, values)] + r.value.0, r.value.1))
  {
    hide Lex, ParseValues, ParseFields;
  }

  lemma {:induction false} MsgStep(p: Pos, name: seq<byte>, fields: seq<FieldDecl>, close: Pos)
    requires p.tok == Ident(K_MESSAGE) && V.Next(p).tok == Ident(name) && IsId(Ident(name))
    requires V.Next(V.Next(p)).tok == Punct(OPEN) && K_ENUM != K_MESSAGE
    requires ParseFields(V.Next(V.Next(V.Next(p)))) == Parsed(fields, close)
    ensures var r := ParseDecls(V.Next(close));
            ParseDecls(p) == if close.tok != Punct(CLOSE) || r.None? then None
                             else Some((r.value.0, [MsgDecl(name, fields)] + r.value.1))
  {
    hide Lex, ParseValues, ParseFields;
  }

  /** Every schema that is written by the grammar declares what it says: enums and messages in their order,
      constants numbered as given, or onwards from their predecessors. */
  lemma SourceDeclares(pkg: Option<seq<byte>>, ds: seq<Form>, gap: seq<byte>)
    requires (forall i :: 0 <= i < |ds| ==> ValidForm(ds[i])) && G.Gap(gap) && (pkg.Some? ==> Id(pkg.value))
    ensures ParseSchema(SourceText(pkg, ds, gap))
         == Some(Source(if pkg.Some? then pkg.value else [], Enums(ds), Msgs(ds)))
  {
    hide Lex, G.Gap, FormsText, ValidForm, V.Next, K.IsName, IsId, Id, ParseDecls, Enums, Msgs, Ascii;
    FormsRead(ds, gap);
    var rest := FormsText(ds, gap);
    if pkg.Some? {
      Keywords();
      IdToken(pkg.value);
      var name := pkg.value + (gap + rest);
      PackageFront(Ascii("package"), pkg.value, gap, rest);
      WordLex(K_PACKAGE, gap, name);
      WordLex(pkg.value, gap, rest);
    } else {
      assert [] + rest == rest;
    }
  }

  lemma PackageFront(key: seq<byte>, name: seq<byte>, gap: seq<byte>, rest: seq<byte>)
    ensures key + gap + name + gap + rest == key + (gap + (name + (gap + rest)))
  {
  }

  /** Three constants without values are numbered 0, 1, 2, and one behind a given value goes on from it. */
  lemma CountsOn(r: seq<byte>, g: seq<byte>, b: seq<byte>)
    ensures Numbered([Item(r, None), Item(g, None), Item(b, None)],
                     [EnumDesc(r, 0), EnumDesc(g, 1), EnumDesc(b, 2)], 0)
    ensures Numbered([Item(r, Some(65535)), Item(g, None), Item(b, Some(-1))],
                     [EnumDesc(r, 65535), EnumDesc(g, 0), EnumDesc(b, 65535)], 0)
  {
  }

  // ---------------------------------------------------------------- what is refused

  /** A NUL character ends the input like the end of the file does. */
  lemma EndsAtNul(ds: seq<Form>, gap: seq<byte>, rest: seq<byte>)
    requires (forall i :: 0 <= i < |ds| ==> ValidForm(ds[i])) && G.Gap(gap)
    ensures ParseDecls(Lex(FormsText(ds, gap) + ([0] + rest))) == Some((Enums(ds), Msgs(ds)))
  {
    hide Lex, G.Gap, FormsText, ValidForm, Enums, Msgs;
    X.OtherCharacter(0, rest);
    FormsThen(ds, gap, [0] + rest);
    assert Enums(ds) + [] == Enums(ds) && Msgs(ds) + [] == Msgs(ds);
  }

  /** Anything else that is no declaration is refused, however many declarations precede it. */
  lemma NoDeclaration(ds: seq<Form>, gap: seq<byte>, rest: seq<byte>)
    requires (forall i :: 0 <= i < |ds| ==> ValidForm(ds[i])) && G.Gap(gap)
    requires var tok := Lex(rest).tok;
             tok != Eof && tok != Punct(0) && tok != Ident(Ascii("enum")) && tok != Ident(Ascii("message"))
    ensures ParseDecls(Lex(FormsText(ds, gap) + rest)) == None
  {
    hide Lex, G.Gap, FormsText, ValidForm, Enums, Msgs;
    Keywords();
    FormsThen(ds, gap, rest);
  }

  /** A declaration without a name, or without its opening brace. */
  lemma HeadRefused(key: seq<byte>, name: Option<seq<byte>>, gap: seq<byte>, rest: seq<byte>)
    requires (key == Ascii("enum") || key == Ascii("message")) && G.Gap(gap) && (name.Some? ==> Id(name.value))
    requires if name.Some? then Lex(rest).tok != Punct(OPEN) else !IsId(Lex(rest).tok)
    ensures ParseDecls(Lex(key + (gap + ((if name.Some? then name.value + gap else []) + rest)))) == None
  {
    hide Lex, G.Gap, Id, IsId, ParseValues, ParseFields, K.IsName;
    Keywords();
    var tail := (if name.Some? then name.value + gap else []) + rest;
    WordLex(key, gap, tail);
    if name.Some? {
      IdToken(name.value);
      assert tail == name.value + (gap + rest);
      WordLex(name.value, gap, rest);
    } else {
      assert tail == rest;
    }
    hide Ascii;
  }

  /** A declaration whose closing brace is missing. */
  lemma BodyRefused(d: Form, gap: seq<byte>, rest: seq<byte>)
    requires ValidForm(d) && G.Gap(gap)
    requires !IsId(Lex(rest).tok) && Lex(rest).tok != Punct(EQUALS) && Lex(rest).tok != Punct(CLOSE)
    ensures var body := if d.EnumForm? then ItemsText(d.items, gap) else FieldsText(d.fields, gap);
            var key := if d.EnumForm? then Ascii("enum") else Ascii("message");
            ParseDecls(Lex(key + (gap + (d.name + (gap + (Ascii("{") + (gap + (body + rest)))))))) == None
  {
    hide Lex, G.Gap, V.Next, Id, K.IsName, IsId, ItemsText, FieldsText, Numbered, ValidItem, ParseDecls;
    hide ParseValues, ParseFields;
    Keywords();
    Signs();
    hide Ascii;
    IdToken(d.name);
    var body := if d.EnumForm? then ItemsText(d.items, gap) else FieldsText(d.fields, gap);
    var key := if d.EnumForm? then K_ENUM else K_MESSAGE;
    var open := [OPEN] + (gap + (body + rest));
    WordLex(key, gap, d.name + (gap + open));
    WordLex(d.name, gap, open);
    SignLex(OPEN, gap, body + rest);
    var p := Lex(key + (gap + (d.name + (gap + open))));
    if d.EnumForm? {
      ItemsRead(d.items, d.values, gap, rest);
      EnumStep(p, d.name, d.values, Lex(rest));
    } else {
      FieldsRead(d.fields, gap, rest);
      MsgStep(p, d.name, d.fields, Lex(rest));
    }
  }

  /** An equals sign without a number. */
  lemma {:induction false} ValueRefused(name: seq<byte>, next: nat, gap: seq<byte>, rest: seq<byte>)
    requires Id(name) && G.Gap(gap) && !Lex(rest).tok.Int?
    ensures ParseValues(Lex(name + (gap + (Ascii("=") + (gap + rest)))), next) == SyntaxError
  {
    hide Lex, G.Gap, Id, IsId, K.IsName;
    Signs();
    IdToken(name);
    WordLex(name, gap, Ascii("=") + (gap + rest));
    SignLex(EQUALS, gap, rest);
    hide Ascii;
  }

  /** A field without its colon, without a type, or with an opening bracket that is not closed. */
  lemma {:induction false} FieldRefused(name: seq<byte>, gap: seq<byte>, rest: seq<byte>)
    requires Id(name) && G.Gap(gap)
    ensures Lex(rest).tok != Punct(COLON) ==> ParseFields(Lex(name + (gap + rest))) == SyntaxError
    ensures !IsId(Lex(rest).tok) && Lex(rest).tok != Punct(LBRACKET) ==>
              ParseFields(Lex(name + (gap + (Ascii(":") + (gap + rest))))) == SyntaxError
    ensures Lex(rest).tok != Punct(RBRACKET) ==>
              ParseFields(Lex(name + (gap + (Ascii(":") + (gap + (Ascii("[") + (gap + rest))))))) == SyntaxError
  {
    hide Lex, G.Gap, Id, IsId, K.IsName;
    Signs();
    IdToken(name);
    var bracket := [LBRACKET] + (gap + rest);
    WordLex(name, gap, rest);
    WordLex(name, gap, [COLON] + (gap + rest));
    WordLex(name, gap, [COLON] + (gap + bracket));
    SignLex(COLON, gap, rest);
    SignLex(COLON, gap, bracket);
    SignLex(LBRACKET, gap, rest);
    hide Ascii;
  }

  /** A package without a name. */
  lemma PackageRefused(gap: seq<byte>, rest: seq<byte>)
    requires G.Gap(gap) && !IsId(Lex(rest).tok)
    ensures ParseSchema(Ascii("package") + (gap + rest)) == None
  {
    hide Lex, G.Gap, IsId, ParseDecls;
    Keywords();
    WordLex(K_PACKAGE, gap, rest);
  }

  // ---------------------------------------------------------------- what compiles

  const BUILTIN_NAMES: seq<string> := [
    "bool", "int8", "int16", "int32", "int64", "uint8", "uint16", "uint32", "uint64", "float", "double", "string"
  ]

  /** The built-in types: their names, kinds, and sizes in bytes. */
  lemma BuiltinTypes(k: nat)
    requires k < 12
    ensures |BUILTINS| == 12 && BUILTINS[k].name == Ascii(BUILTIN_NAMES[k])
    ensures BUILTINS[k].kind == [BOOL, INT, INT, INT, INT, UINT, UINT, UINT, UINT, FLOAT, FLOAT, STR][k]
    ensures BUILTINS[k].size == [0, 1, 2, 4, 8, 1, 2, 4, 8, 4, 8, 1][k]
  {
    hide Ascii;
    SignedTexts();
    UnsignedTexts();
    OtherTexts();
    if k < 6 {
      assert k == 0 || k == 1 || k == 2 || k == 3 || k == 4 || k == 5;
    } else {
      assert k == 6 || k == 7 || k == 8 || k == 9 || k == 10 || k == 11;
    }
  }

  lemma SignedTexts()
    ensures Ascii("int8") == T_INT + [56] && Ascii("int16") == T_INT + [49, 54]
    ensures Ascii("int32") == T_INT + [51, 50] && Ascii("int64") == T_INT + [54, 52]
  {
  }

  lemma UnsignedTexts()
    ensures Ascii("uint8") == T_UINT + [56] && Ascii("uint16") == T_UINT + [49, 54]
    ensures Ascii("uint32") == T_UINT + [51, 50] && Ascii("uint64") == T_UINT + [54, 52]
  {
  }

  lemma OtherTexts()
    ensures Ascii("bool") == T_BOOL && Ascii("float") == T_FLOAT && Ascii("double") == T_DOUBLE
    ensures Ascii("string") == T_STRING
  {
  }

  predicate BuiltinName(name: seq<byte>) {
    exists k :: 0 <= k < 12 && name == Ascii(BUILTIN_NAMES[k])
  }

  /** The name stands for a type. */
  predicate TypeNamed(src: Source, name: seq<byte>) {
    || BuiltinName(name)
    || (exists i :: 0 <= i < |src.enums| && src.enums[i].name == name)
    || (exists i :: 0 <= i < |src.msgs| && src.msgs[i].name == name)
  }

  /** No two types have the same name. */
  predicate NamesApart(src: Source) {
    && (forall i :: 0 <= i < |src.enums| ==> !BuiltinName(src.enums[i].name))
    && (forall i :: 0 <= i < |src.msgs| ==> !BuiltinName(src.msgs[i].name))
    && (forall i, j :: 0 <= i < j < |src.enums| ==> src.enums[i].name != src.enums[j].name)
    && (forall i, j :: 0 <= i < j < |src.msgs| ==> src.msgs[i].name != src.msgs[j].name)
    && (forall i, j :: 0 <= i < |src.enums| && 0 <= j < |src.msgs| ==> src.enums[i].name != src.msgs[j].name)
  }

  /** Which built-in type has a name of that length, first and last letter. */
  function Which(name: seq<byte>): nat {
    if name == [] then 12
    else
      var n, a, z := |name|, name[0], name[|name| - 1];
      if n == 4 then (if a == 'b' as int then 0 else 1)
      else if n == 5 then
        (if a == 'u' as int then 5 else if a == 'f' as int then 9
         else if z == '6' as int then 2 else if z == '2' as int then 3 else 4)
      else if a == 'd' as int then 10
      else if a == 's' as int then 11
      else if z == '6' as int then 6
      else if z == '2' as int then 7
      else 8
  }

  lemma WhichIs(k: nat)
    requires k < 12
    ensures Which(BUILTINS[k].name) == k
  {
    if k < 6 {
      assert k == 0 || k == 1 || k == 2 || k == 3 || k == 4 || k == 5;
    } else {
      assert k == 6 || k == 7 || k == 8 || k == 9 || k == 10 || k == 11;
    }
  }

  /** Names of the table of types, entry by entry. */
  lemma TableNames(src: Source, i: nat)
    requires i < 12 + |src.enums| + |src.msgs|
    ensures var t, m := Table(src), 12 + |src.enums|;
            && |t| == m + |src.msgs|
            && t[i].name == if i < 12 then BUILTINS[i].name
                            else if i < m then src.enums[i - 12].name
                            else src.msgs[i - m].name
  {
    var m := 12 + |src.enums|;
    if i >= m {
      assert Table(src)[m + (i - m)].name == src.msgs[i - m].name;
    } else if i >= 12 {
      assert Table(src)[12 + (i - 12)].name == src.enums[i - 12].name;
    }
  }

  lemma DistinctIff(src: Source)
    ensures Distinct(Table(src)) <==> NamesApart(src)
  {
    hide Table, BuiltinName;
    var t, m := Table(src), 12 + |src.enums|;
    forall i | 0 <= i < |t|
      ensures t[i].name == if i < 12 then BUILTINS[i].name
                           else if i < m then src.enums[i - 12].name
                           else src.msgs[i - m].name
    {
      TableNames(src, i);
    }
    if NamesApart(src) {
      forall i, j | 0 <= i < j < |t|
        ensures t[i].name != t[j].name
      {
        if j < 12 {
          WhichIs(i);
          WhichIs(j);
        } else if i < 12 {
          IsBuiltin(i);
        }
      }
    }
    if Distinct(t) {
      ApartNames(src);
    }
  }

  lemma IsBuiltin(k: nat)
    requires k < 12
    ensures BuiltinName(BUILTINS[k].name)
  {
    BuiltinTypes(k);
  }

  lemma BuiltinAt(name: seq<byte>) returns (k: nat)
    requires BuiltinName(name)
    ensures k < 12 && BUILTINS[k].name == name
  {
    k :| 0 <= k < 12 && name == Ascii(BUILTIN_NAMES[k]);
    BuiltinTypes(k);
  }

  lemma BuiltinsTaken(src: Source, i: nat)
    requires Distinct(Table(src)) && 12 <= i < |Table(src)|
    ensures !BuiltinName(Table(src)[i].name)
  {
    var t := Table(src);
    forall k | 0 <= k < 12
      ensures t[i].name != Ascii(BUILTIN_NAMES[k])
    {
      BuiltinTypes(k);
      assert t[k].name != t[i].name;
    }
  }

  lemma ApartNames(src: Source)
    requires Distinct(Table(src))
    ensures NamesApart(src)
  {
    hide BuiltinName, Table;
    var t, m := Table(src), 12 + |src.enums|;
    TableNames(src, 0);
    forall i | 0 <= i < |src.enums|
      ensures !BuiltinName(src.enums[i].name) && t[12 + i].name == src.enums[i].name
    {
      TableNames(src, 12 + i);
      BuiltinsTaken(src, 12 + i);
    }
    forall i | 0 <= i < |src.msgs|
      ensures !BuiltinName(src.msgs[i].name) && t[m + i].name == src.msgs[i].name
    {
      TableNames(src, m + i);
      BuiltinsTaken(src, m + i);
    }
    forall i, j | 0 <= i < j < |src.enums|
      ensures src.enums[i].name != src.enums[j].name
    {
      assert t[12 + i].name != t[12 + j].name;
    }
    forall i, j | 0 <= i < j < |src.msgs|
      ensures src.msgs[i].name != src.msgs[j].name
    {
      assert t[m + i].name != t[m + j].name;
    }
    forall i, j | 0 <= i < |src.enums| && 0 <= j < |src.msgs|
      ensures src.enums[i].name != src.msgs[j].name
    {
      assert t[12 + i].name != t[m + j].name;
    }
  }

  lemma FoundIff(src: Source, name: seq<byte>)
    ensures Find(Table(src), name).Some? <==> TypeNamed(src, name)
  {
    hide Find, BuiltinName, Table;
    var t, m := Table(src), 12 + |src.enums|;
    TableNames(src, 0);
    var r := Find(t, name);
    if r.Some? {
      var i :| 0 <= i < |t| && t[i] == r.value;
      TableNames(src, i);
      if i < 12 {
        IsBuiltin(i);
      }
    }
    if TypeNamed(src, name) {
      if BuiltinName(name) {
        var k := BuiltinAt(name);
        TableNames(src, k);
      } else if exists i :: 0 <= i < |src.enums| && src.enums[i].name == name {
        var i :| 0 <= i < |src.enums| && src.enums[i].name == name;
        TableNames(src, 12 + i);
      } else {
        var i :| 0 <= i < |src.msgs| && src.msgs[i].name == name;
        TableNames(src, m + i);
      }
    }
  }

  /** A schema compiles if and only if it has at most 8192 types, the twelve built-in ones included, their names
      differ, and every field has a type. */
  lemma CompilesIff(src: Source)
    ensures C.Compile(src).Some?
       <==> && 12 + |src.enums| + |src.msgs| <= 8192
            && NamesApart(src)
            && forall i, j :: 0 <= i < |src.msgs| && 0 <= j < |src.msgs[i].fields| ==>
                 TypeNamed(src, src.msgs[i].fields[j].tname)
  {
    hide Find, NamesApart, TypeNamed, Distinct, C.CompileTypes;
    DistinctIff(src);
    forall i, j | 0 <= i < |src.msgs| && 0 <= j < |src.msgs[i].fields|
      ensures Find(Table(src), src.msgs[i].fields[j].tname).Some? <==> TypeNamed(src, src.msgs[i].fields[j].tname)
    {
      FoundIff(src, src.msgs[i].fields[j].tname);
    }
    forall i | 0 <= i < |src.msgs|
      ensures C.Resolved(Table(src), src.msgs[i].fields)
         <==> forall j :: 0 <= j < |src.msgs[i].fields| ==> TypeNamed(src, src.msgs[i].fields[j].tname)
    {
    }
    hide Table, C.Resolved;
  }

  // ---------------------------------------------------------------- what a decompiled schema looks like

  function TypeShown(S: Schema, f: FieldDesc): seq<byte> {
    match f.kind
    case BOOL => Ascii("bool")
    case INT => Ascii("int") + W.Decimal(8 * f.tag1)
    case UINT => Ascii("uint") + W.Decimal(8 * f.tag1)
    case FLOAT => if f.tag1 == 4 then Ascii("float") else Ascii("double")
    case STR => Ascii("string")
    case ENUM => if f.tag1 < |S.enums| then S.enums[f.tag1].name else []
    case PTR => if f.tag1 < |S.msgs| then S.msgs[f.tag1].name else []
  }

  /** A field, and in a comment where it lies: a pointer, a bit, or a byte of the scalar part. */
  function FieldShown(S: Schema, f: FieldDesc): seq<byte> {
    Ascii("\t") + f.name + Ascii(": ") + (if f.list then Ascii("[]") else []) + TypeShown(S, f) + Ascii("  // ")
    + (if f.list || f.kind == STR || f.kind == PTR then Ascii("p")
       else if f.kind == BOOL then Ascii("b")
       else Ascii("s"))
    + W.Decimal(f.tag0) + Ascii("\n")
  }

  function FieldsShown(S: Schema, fields: seq<FieldDesc>): seq<byte> {
    if fields == [] then [] else FieldShown(S, fields[0]) + FieldsShown(S, fields[1..])
  }

  function MsgShown(S: Schema, d: MsgDesc): seq<byte> {
    Ascii("\nmessage ") + d.name + Ascii(" {\n") + FieldsShown(S, d.fields)
    + Ascii("}  // (") + W.Decimal(d.ssize) + Ascii("s, ") + W.Decimal(d.psize) + Ascii("p)\n")
  }

  function ValuesShown(values: seq<EnumDesc>): seq<byte> {
    if values == [] then []
    else
      Ascii("\t") + values[0].name + Ascii(" = ") + W.Decimal(values[0].value) + Ascii("\n") + ValuesShown(values[1..])
  }

  function EnumShown(e: EnumType): seq<byte> {
    Ascii("\nenum ") + e.name + Ascii(" {\n") + ValuesShown(e.values) + Ascii("}\n")
  }

  function MsgsShown(S: Schema, ds: seq<MsgDesc>): seq<byte> {
    if ds == [] then [] else MsgShown(S, ds[0]) + MsgsShown(S, ds[1..])
  }

  function EnumsShown(es: seq<EnumType>): seq<byte> {
    if es == [] then [] else EnumShown(es[0]) + EnumsShown(es[1..])
  }

  lemma DecIs(n: nat)
    ensures K.Dec(n) == W.Decimal(n)
  {
    W.IntIs(n);
  }

  lemma TypeIs(S: Schema, f: FieldDesc)
    ensures TypeName(S, f) == TypeShown(S, f)
  {
    hide W.Decimal, K.Dec;
    DecIs(8 * f.tag1);
    assert T_BOOL == Ascii("bool") && T_INT == Ascii("int") && T_UINT == Ascii("uint") && T_STRING == Ascii("string");
    assert T_FLOAT == Ascii("float") && T_DOUBLE == Ascii("double");
  }

  lemma FieldIs(S: Schema, f: FieldDesc)
    ensures FieldLine(S, f) == FieldShown(S, f)
  {
    hide W.Decimal, K.Dec, TypeName, TypeShown, Ascii;
    TypeIs(S, f);
    DecIs(f.tag0);
    FieldMarks();
  }

  lemma FieldMarks()
    ensures Ascii("\t") == [TAB] && Ascii(": ") == [COLON, SPACE] && Ascii("[]") == [LBRACKET, RBRACKET]
    ensures Ascii("  // ") == [SPACE, SPACE, SLASH, SLASH, SPACE] && Ascii("\n") == [NL]
    ensures Ascii("p") == [112] && Ascii("b") == [98] && Ascii("s") == [115]
  {
  }

  lemma {:induction false} FieldsAre(S: Schema, fields: seq<FieldDesc>)
    ensures FieldLines(S, fields) == FieldsShown(S, fields)
  {
    hide FieldLine, FieldShown;
    if fields != [] {
      FieldIs(S, fields[0]);
      FieldsAre(S, fields[1..]);
    }
  }

  lemma MsgIs(S: Schema, d: MsgDesc)
    ensures MsgText(S, d) == MsgShown(S, d)
  {
    hide W.Decimal, K.Dec, FieldLines, FieldsShown;
    FieldsAre(S, d.fields);
    DecIs(d.ssize);
    DecIs(d.psize);
    MsgMarks();
    hide Ascii;
  }

  lemma MsgMarks()
    ensures Ascii("\nmessage ") == [NL] + K_MESSAGE + [SPACE] && Ascii(" {\n") == [SPACE, OPEN, NL]
    ensures Ascii("}  // (") == [CLOSE] + ([SPACE, SPACE, SLASH, SLASH, SPACE] + [40])
    ensures Ascii("s, ") == [115, 44, SPACE] && Ascii("p)\n") == [112, 41] + [NL]
  {
  }

  lemma {:induction false} ValuesAre(values: seq<EnumDesc>)
    ensures ValueLines(values) == ValuesShown(values)
  {
    hide W.Decimal, K.Dec;
    if values != [] {
      DecIs(values[0].value);
      ValuesAre(values[1..]);
      assert Ascii("\t") == [TAB] && Ascii(" = ") == [SPACE, EQUALS, SPACE] && Ascii("\n") == [NL];
      hide Ascii, ValueLines;
    }
  }

  lemma EnumIs(e: EnumType)
    ensures EnumText(e) == EnumShown(e)
  {
    hide ValueLines, ValuesShown;
    ValuesAre(e.values);
    assert Ascii("\nenum ") == [NL] + K_ENUM + [SPACE] && Ascii(" {\n") == [SPACE, OPEN, NL];
    assert Ascii("}\n") == [CLOSE, NL];
    hide Ascii;
  }

  lemma {:induction false} MsgsAre(S: Schema, ds: seq<MsgDesc>)
    ensures MsgTexts(S, ds) == MsgsShown(S, ds)
  {
    hide MsgText, MsgShown;
    if ds != [] {
      MsgIs(S, ds[0]);
      MsgsAre(S, ds[1..]);
    }
  }

  lemma {:induction false} EnumsAre(es: seq<EnumType>)
    ensures EnumTexts(es) == EnumsShown(es)
  {
    hide EnumText, EnumShown;
    if es != [] {
      EnumIs(es[0]);
      EnumsAre(es[1..]);
    }
  }

  /** The text of a schema: the package if there is one, then all enums, then all messages. */
  lemma SchemaShown(S: Schema)
    ensures PrintSchema(S)
         == (if S.pkg == [] then [] else Ascii("package ") + S.pkg + Ascii("\n"))
            + EnumsShown(S.enums) + MsgsShown(S, S.msgs)
  {
    hide EnumTexts, MsgTexts, EnumsShown, MsgsShown;
    EnumsAre(S.enums);
    MsgsAre(S, S.msgs);
    assert Ascii("package ") == K_PACKAGE + [SPACE] && Ascii("\n") == [NL];
  }
}
