/** What the parser of the text format (lib/parse.c) makes of its input, in terms of message values:
    which tokens it takes, where it stops, and the message it has built by then. */
module ValueParser {
  import opened Bytes
  import opened Lexer
  import opened Schemas
  import opened Views
  import T = Texts

  /** How parsing ended.  `Aborted` marks the failed assertion on a string field whose value is no string,
      `Broken` any failed assertion or bounds check of the builder. */
  datatype Status = Good | Bad | Aborted | Broken

  datatype Literal = Lit(v: Val) | NoLit | Crash

  const COMMA: byte := 44
  const SEMICOLON: byte := 59

  /** The value that a token denotes for a field that is not a message. */
  function ReadLiteral(S: Schema, f: FieldDesc, tok: Token): Literal {
    match f.kind
    case BOOL =>
      if tok.Int? then Lit(VBool(tok.v != 0))
      else if tok == Ident(T.TRUE) then Lit(VBool(true))
      else if tok == Ident(T.FALSE) then Lit(VBool(false))
      else NoLit
    case ENUM =>
      if tok.Int? then Lit(VInt(tok.v))
      else if tok.Ident? && f.tag1 < |S.enums| then
        var v := EnumValue(S.enums[f.tag1].values, tok.s);
        if v.Some? then Lit(VInt(v.value)) else NoLit
      else NoLit
    case STR => if tok.Str? || tok.Ident? then Lit(VStr(tok.s)) else Crash
    case _ => if tok.Int? then Lit(VInt(tok.v)) else NoLit
  }

  /** A value as the field stores it: integers are cut to the width of the field. */
  function Narrow(f: FieldDesc, v: Val): Val {
    match v
    case VInt(n) =>
      (match f.kind
       case INT => VInt(Signed(n % Pow256(f.tag1), f.tag1))
       case UINT => VInt(n % Pow256(f.tag1))
       case _ => VInt(n % 0x1_0000))
    case _ => v
  }

  /** The field's object is created or grown before its value is read. */
  predicate Grows(f: FieldDesc) {
    f.list || f.kind == PTR
  }

  function BlankScalar(f: FieldDesc): Val {
    match f.kind
    case BOOL => VBool(false)
    case STR => VStr([])
    case _ => VInt(0)
  }

  /** A message of which nothing was set. */
  function Empty(S: Schema, mi: nat): (m: Msg)
    requires mi < |S.msgs|
    ensures |m| == |S.msgs[mi].fields|
  {
    var fields := S.msgs[mi].fields;
    seq(|fields|, i requires 0 <= i < |fields| =>
      if Grows(fields[i]) then Items([]) else Items([BlankScalar(fields[i])]))
  }

  /** What a new element of a field's object reads as. */
  function Blank(S: Schema, f: FieldDesc): Val {
    if f.kind == PTR then VMsg(if f.tag1 < |S.msgs| then Empty(S, f.tag1) else []) else BlankScalar(f)
  }

  /** The items of a field when its value is about to be read. */
  function Prepared(S: Schema, f: FieldDesc, items: Items): (r: Items)
    ensures r.s != [] || |items.s| == 0
  {
    if Grows(f) then Items(items.s + [Blank(S, f)]) else items
  }

  /** Storing a value as the last item.  The first element of a list of bools is not stored: its object
      has no bytes of its own at that point. */
  function Put(f: FieldDesc, items: Items, v: Val): Items {
    if items.s == [] || (f.list && f.kind == BOOL && |items.s| == 1) then items
    else Items(items.s[..|items.s| - 1] + [v])
  }

  datatype MsgResult = MsgResult(m: Msg, st: Status, p: Pos)
  datatype FieldResult = FieldResult(items: Items, st: Status, p: Pos)

  /** How much input is left, the current token included. */
  function Left(p: Pos): nat {
    |p.rest| + (if p.tok == Eof then 0 else 1)
  }

  /** Takes the current token and reads the next one. */
  function Next(p: Pos): (q: Pos)
    ensures Left(q) <= |p.rest|
    ensures p.tok != Eof ==> Left(q) < Left(p)
  {
    Lex(p.rest)
  }

  /** A separator behind a field is optional. */
  function SkipComma(p: Pos): (q: Pos)
    ensures Left(q) <= Left(p)
  {
    if p.tok == Punct(COMMA) || p.tok == Punct(SEMICOLON) then Next(p) else p
  }

  /** Parses fields up to a token that is not a name.  Unknown fields and repeated messages end the loop
      without an error. */
  function ReadMsg(S: Schema, mi: nat, m: Msg, p: Pos): (r: MsgResult)
    requires mi < |S.msgs| && |m| == |S.msgs[mi].fields|
    ensures |r.m| == |m| && Left(r.p) <= Left(p) && r.st != Broken
    decreases Left(p), 2
  {
    if !p.tok.Ident? then MsgResult(m, Good, p)
    else
      var fields := S.msgs[mi].fields;
      var i := FindField(fields, p.tok.s);
      if i.None? || Repeated(fields[i.value], m[i.value]) then MsgResult(m, Good, p)
      else
        var v := ReadField(S, fields[i.value], Prepared(S, fields[i.value], m[i.value]), Next(p));
        var n := m[i.value := v.items];
        if v.st == Good then ReadMsg(S, mi, n, SkipComma(v.p)) else MsgResult(n, v.st, v.p)
  }

  /** A single message that was given already. */
  predicate Repeated(f: FieldDesc, items: Items) {
    f.kind == PTR && !f.list && items.s != []
  }

  /** Parses what follows a field name. */
  function ReadField(S: Schema, f: FieldDesc, items: Items, p: Pos): (r: FieldResult)
    ensures Left(r.p) <= Left(p) && r.st != Broken
    decreases Left(p), 1
  {
    if f.kind == PTR then
      var q := if p.tok == Punct(COLON) then Next(p) else p;
      if q.tok != Punct(OPEN) then FieldResult(items, Bad, q)
      else ReadNested(S, f, items, q)
    else if p.tok != Punct(COLON) then FieldResult(items, Bad, p)
    else
      var q := Next(p);
      match ReadLiteral(S, f, q.tok)
      case Lit(v) => FieldResult(Put(f, items, Narrow(f, v)), Good, Next(q))
      case NoLit => FieldResult(items, Bad, q)
      case Crash => FieldResult(items, Aborted, q)
  }

  /** Parses a message in braces into the last item. */
  function ReadNested(S: Schema, f: FieldDesc, items: Items, q: Pos): (r: FieldResult)
    requires q.tok == Punct(OPEN)
    ensures Left(r.p) <= Left(q) && r.st != Broken
    decreases Left(q), 0
  {
    if items.s == [] || f.tag1 >= |S.msgs| || !items.s[|items.s| - 1].VMsg?
       || |items.s[|items.s| - 1].m| != |S.msgs[f.tag1].fields| then FieldResult(items, Bad, q)
    else
      var n := ReadMsg(S, f.tag1, items.s[|items.s| - 1].m, Next(q));
      var r := Put(f, items, VMsg(n.m));
      if n.st == Good && n.p.tok == Punct(CLOSE) then FieldResult(r, Good, Next(n.p))
      else FieldResult(r, if n.st == Good then Bad else n.st, n.p)
  }

  /** Parses a whole input into a new message: nothing may follow the last field. */
  function ReadAll(S: Schema, mi: nat, input: seq<byte>): (r: MsgResult)
    requires mi < |S.msgs|
    ensures r.st != Broken
  {
    var r := ReadMsg(S, mi, Empty(S, mi), Lex(input));
    if r.st == Good && r.p.tok != Eof then r.(st := Bad) else r
  }
}
