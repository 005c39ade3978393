/** Printing a message and parsing the text gives the message back. */
module TextRoundTrip {
  import opened Bytes
  import opened Lexer
  import opened Tokens
  import opened Schemas
  import opened Views
  import opened Texts
  import opened ValueParser

  // ---------------------------------------------------------------- what survives

  /** Names are identifiers, field names are unique in their message, and so are the names of the values of
      an enum. */
  predicate NamesOK(S: Schema) {
    && (forall i :: 0 <= i < |S.msgs| ==> FieldNamesOK(S.msgs[i].fields))
    && (forall i :: 0 <= i < |S.enums| ==> ValueNamesOK(S.enums[i].values))
  }

  predicate FieldNamesOK(fields: seq<FieldDesc>) {
    && (forall i :: 0 <= i < |fields| ==> IsName(fields[i].name))
    && (forall i, j :: 0 <= i < j < |fields| ==> fields[i].name != fields[j].name)
  }

  predicate ValueNamesOK(values: seq<EnumDesc>) {
    && (forall i :: 0 <= i < |values| ==> IsName(values[i].name))
    && (forall i, j :: 0 <= i < j < |values| ==> values[i].name != values[j].name)
  }

  /** Every string in the message is made of bytes that survive printing and lexing. */
  predicate SafeMsg(m: Msg)
    decreases m
  {
    forall i :: 0 <= i < |m| ==> SafeItems(m[i].s)
  }

  predicate SafeItems(vs: seq<Val>)
    decreases vs
  {
    forall j :: 0 <= j < |vs| ==> SafeVal(vs[j])
  }

  predicate SafeVal(v: Val)
    decreases v
  {
    match v
    case VStr(s) => Safe(s)
    case VMsg(m) => SafeMsg(m)
    case _ => true
  }

  /** The message with the first element of every list of bools cleared. */
  function ClearMsg(S: Schema, mi: nat, m: Msg): (r: Msg)
    requires mi < |S.msgs| && |m| == |S.msgs[mi].fields|
    ensures |r| == |m|
    decreases m, 3
  {
    seq(|m|, i requires 0 <= i < |m| => Items(ClearItems(S, S.msgs[mi].fields[i], m[i].s)))
  }

  function ClearItems(S: Schema, f: FieldDesc, vs: seq<Val>): (r: seq<Val>)
    ensures |r| == |vs|
    decreases vs, 2
  {
    seq(|vs|, j requires 0 <= j < |vs| => ClearItem(S, f, vs[j], j))
  }

  function ClearItem(S: Schema, f: FieldDesc, v: Val, j: nat): Val
    decreases v, 1
  {
    if f.list && f.kind == BOOL && j == 0 then VBool(false) else ClearVal(S, f, v)
  }

  function ClearVal(S: Schema, f: FieldDesc, v: Val): Val
    decreases v, 0
  {
    if v.VMsg? && f.tag1 < |S.msgs| && |v.m| == |S.msgs[f.tag1].fields| then VMsg(ClearMsg(S, f.tag1, v.m)) else v
  }

  /** What may follow the text of a message: the end of the input, or a closing brace. */
  predicate EndsMsg(rest: seq<byte>) {
    (Lex(rest).tok == Eof || Lex(rest).tok == Punct(CLOSE)) && NoLiteral(rest)
  }

  // ---------------------------------------------------------------- one token after another

  lemma LexIndented(ind: int, rest: seq<byte>)
    ensures Lex(Spaces(ind) + rest) == Lex(rest) && SkipSpaces(Spaces(ind) + rest) == SkipSpaces(rest)
  {
    LexSkips(Spaces(ind), rest);
  }

  lemma LexBreak(inc: int, rest: seq<byte>)
    ensures Lex([Break(inc)] + rest) == Lex(rest) && SkipSpaces([Break(inc)] + rest) == SkipSpaces(rest)
  {
    LexSkips([Break(inc)], rest);
  }

  lemma LexAfterBlank(rest: seq<byte>)
    ensures Lex([SPACE] + rest) == Lex(rest)
  {
    LexSkips([SPACE], rest);
  }

  lemma BreakEnds(inc: int, rest: seq<byte>)
    ensures Ends([Break(inc)] + rest)
  {
  }

  lemma NameFront(name: seq<byte>, rest: seq<byte>)
    requires IsName(name)
    ensures NoLiteral(name + rest)
  {
    NoSpace(name + rest);
  }

  lemma TrueFalseNames()
    ensures IsName(TRUE) && IsName(FALSE) && TRUE != FALSE
  {
    assert TRUE[0] != FALSE[0];
  }

  lemma {:induction false} EnumNameBack(values: seq<EnumDesc>, v: nat)
    requires ValueNamesOK(values) && EnumName(values, v).Some?
    ensures EnumValue(values, EnumName(values, v).value) == Some(v)
    ensures IsName(EnumName(values, v).value)
  {
    var name := EnumName(values, v).value;
    var i :| 0 <= i < |values| && values[i] == EnumDesc(name, v);
    var r := EnumValue(values, name);
    if r.Some? {
      var j :| 0 <= j < |values| && values[j] == EnumDesc(name, r.value);
      assert i == j;
    }
  }

  // ---------------------------------------------------------------- literals

  lemma LexOfSkip(s: seq<byte>)
    ensures Lex(SkipSpaces(s)) == Lex(s)
  {
    NoSpace(SkipSpaces(s));
  }

  /** A printed integer, as the field stores it. */
  lemma IntegerBack(f: FieldDesc, n: int, w: int)
    requires f.kind == ENUM || ((f.kind == INT || f.kind == UINT) && f.tag1 in {1, 2, 4, 8})
    requires InWidth(f, n) && w == if n < I63 then n else n - I64
    ensures -I63 <= n < I64 && Narrow(f, VInt(w)) == VInt(n)
  {
    Pow256Values();
    var p := if f.kind == ENUM then 0x1_0000 else Pow256(f.tag1);
    assert p <= I64 && p > 0;
    hide Pow256;
    if f.kind == INT {
      SignedBack(n, p);
    } else if n < I63 {
      ModUnique(w, p, 0, n);
    } else {
      ModUnique(w, p, -1, n);
    }
  }

  lemma SignedBack(n: int, p: nat)
    requires p > 0 && p % 2 == 0 && 0 - p <= 2 * n < p
    ensures (if 2 * (n % p) < p then n % p else n % p - p) == n
  {
    if n >= 0 {
      ModUnique(n, p, 0, n);
    } else {
      ModUnique(n, p, -1, n + p);
    }
  }

  /** The text of a value that is not a message, followed by a line break, reads as that value. */
  lemma LiteralBack(S: Schema, f: FieldDesc, v: Val, ind: int, inc: int, more: seq<byte>) returns (w: Val)
    requires NamesOK(S) && FieldOK(S, f) && f.kind != PTR && TypedItem(S, f, v) && SafeVal(v) && NoLiteral(more)
    ensures var t := Lex(TextVal(S, f, v, ind, inc) + ([Break(inc)] + more));
            && ReadLiteral(S, f, t.tok) == Lit(w) && Narrow(f, w) == v
            && t.tok != Eof && Lex(t.rest) == Lex(more)
  {
    hide Lex, Safe, NamesOK, NoLiteral, SkipSpaces, Dump, DecInt, InWidth, EnumName, EnumValue;
    var rest := [Break(inc)] + more;
    LexBreak(inc, more);
    BreakEnds(inc, more);
    match v
    case VBool(b) =>
      TrueFalseNames();
      NameRoundTrip(if b then TRUE else FALSE, rest);
      w := v;
    case VStr(s) =>
      StringEnds(inc, more);
      StringRoundTrip(s, rest);
      LexOfSkip(rest);
      w := v;
    case VInt(n) =>
      w := NumberBack(S, f, n, ind, inc, rest);
  }

  lemma StringEnds(inc: int, more: seq<byte>)
    requires NoLiteral(more)
    ensures NoLiteral([Break(inc)] + more)
  {
    LexBreak(inc, more);
  }

  /** Integers, and enum values with or without a name. */
  lemma NumberBack(S: Schema, f: FieldDesc, n: int, ind: int, inc: int, rest: seq<byte>) returns (w: Val)
    requires NamesOK(S) && FieldOK(S, f) && f.kind in {INT, UINT, ENUM} && InWidth(f, n) && Ends(rest)
    ensures var t := Lex(TextVal(S, f, VInt(n), ind, inc) + rest);
            && ReadLiteral(S, f, t.tok) == Lit(w) && Narrow(f, w) == VInt(n)
            && t.tok != Eof && t.rest == rest
  {
    hide Lex, DecInt, InWidth, EnumName, EnumValue, ValueNamesOK;
    var k := if n < I63 then n else n - I64;
    IntegerBack(f, n, k);
    if f.kind == ENUM && n >= 0 && EnumName(S.enums[f.tag1].values, n).Some? {
      var values := S.enums[f.tag1].values;
      assert ValueNamesOK(values);
      EnumNameBack(values, n);
      NameEnds(EnumName(values, n).value, rest);
      w := VInt(n);
      EnumCut(f, n);
    } else {
      NumberRoundTrip(n, rest);
      w := VInt(k);
    }
  }

  lemma EnumCut(f: FieldDesc, n: int)
    requires f.kind == ENUM && InWidth(f, n)
    ensures Narrow(f, VInt(n)) == VInt(n)
  {
  }

  lemma NameEnds(name: seq<byte>, rest: seq<byte>)
    requires IsName(name) && Ends(rest)
    ensures Lex(name + rest) == Pos(Ident(name), rest)
  {
    NameRoundTrip(name, rest);
  }

  // ---------------------------------------------------------------- fields

  /** What stands behind an item: another item, a closing brace, or nothing. */
  predicate Follows(more: seq<byte>) {
    NoLiteral(more) && (Lex(more).tok.Ident? || Lex(more).tok == Eof || Lex(more).tok == Punct(CLOSE))
  }

  /** An item begins with the name of its field. */
  lemma ItemFront(S: Schema, f: FieldDesc, v: Val, ind: int, inc: int, more: seq<byte>) returns (tail: seq<byte>)
    requires IsName(f.name)
    ensures Lex(TextItem(S, f, v, ind, inc) + more) == Pos(Ident(f.name), tail)
    ensures tail == (if f.kind == PTR then [SPACE] else [COLON, SPACE])
                    + (TextVal(S, f, v, ind, inc) + ([Break(inc)] + more))
    ensures Follows(TextItem(S, f, v, ind, inc) + more)
  {
    hide Lex, SkipSpaces, IsName, TextVal, Spaces;
    var sep := if f.kind == PTR then [SPACE] else [COLON, SPACE];
    var val := TextVal(S, f, v, ind, inc);
    tail := sep + (val + ([Break(inc)] + more));
    assert TextItem(S, f, v, ind, inc) + more == Spaces(ind) + (f.name + tail);
    LexIndented(ind, f.name + tail);
    assert tail[0] == sep[0] && !IsIdentChar(sep[0]);
    NameRoundTrip(f.name, tail);
    NameFront(f.name, tail);
  }

  lemma {:induction false} ItemsFollow(S: Schema, f: FieldDesc, vs: seq<Val>, j: nat, ind: int, inc: int,
      more: seq<byte>)
    requires IsName(f.name) && j <= |vs| && Follows(more)
    ensures Follows(TextItems(S, f, vs, j, ind, inc) + more)
  {
    hide Follows, TextItem, IsName;
    if j == |vs| {
      assert TextItems(S, f, vs, j, ind, inc) + more == more;
    } else {
      var next := TextItems(S, f, vs, j + 1, ind, inc);
      assert TextItems(S, f, vs, j, ind, inc) + more == TextItem(S, f, vs[j], ind, inc) + (next + more);
      var tail := ItemFront(S, f, vs[j], ind, inc, next + more);
    }
  }

  lemma {:induction false} FieldsFollow(S: Schema, fields: seq<FieldDesc>, m: Msg, i: nat, ind: int, inc: int,
      more: seq<byte>)
    requires FieldNamesOK(fields) && i <= |fields| == |m| && Follows(more)
    ensures Follows(TextFrom(S, fields, m, i, ind, inc) + more)
    decreases |m| - i
  {
    hide Follows, TextItems, IsName;
    if i == |m| {
      assert TextFrom(S, fields, m, i, ind, inc) + more == more;
    } else {
      var next := TextFrom(S, fields, m, i + 1, ind, inc);
      FieldsFollow(S, fields, m, i + 1, ind, inc, more);
      ItemsFollow(S, fields[i], m[i].s, 0, ind, inc, next + more);
      assert TextFrom(S, fields, m, i, ind, inc) + more == TextItems(S, fields[i], m[i].s, 0, ind, inc) + (next + more);
    }
  }

  lemma FindUnique(fields: seq<FieldDesc>, i: nat)
    requires FieldNamesOK(fields) && i < |fields|
    ensures FindField(fields, fields[i].name) == Some(i)
  {
  }

  /** Everything the round trip needs to know about a message. */
  predicate GoodMsg(S: Schema, mi: nat, m: Msg) {
    && SchemaOK(S) && NamesOK(S) && mi < |S.msgs|
    && Typed(S, mi, m) && SafeMsg(m)
  }

  /** The same for one item of a field. */
  predicate GoodVal(S: Schema, f: FieldDesc, v: Val) {
    && SchemaOK(S) && NamesOK(S) && FieldOK(S, f)
    && TypedItem(S, f, v) && SafeVal(v)
  }

  /** A field that is not a message: colon, literal, line break. */
  lemma ScalarFieldBack(S: Schema, f: FieldDesc, items: Items, v: Val, ind: int, inc: int, more: seq<byte>)
    requires GoodVal(S, f, v) && f.kind != PTR && Follows(more)
    ensures ReadField(S, f, items, Lex([COLON, SPACE] + (TextVal(S, f, v, ind, inc) + ([Break(inc)] + more))))
         == FieldResult(Put(f, items, v), Good, Lex(more))
  {
    hide Lex, TextVal, ReadLiteral, Narrow, Put, SafeVal, TypedItem;
    var val := TextVal(S, f, v, ind, inc) + ([Break(inc)] + more);
    var p := [SPACE] + val;
    assert [COLON, SPACE] + val == [COLON] + p;
    PunctRoundTrip(COLON, p);
    LexAfterBlank(val);
    var w := LiteralBack(S, f, v, ind, inc, more);
  }

  // ---------------------------------------------------------------- whole messages

  /** The items of a field after j of them were parsed. */
  function Mid(S: Schema, f: FieldDesc, vs: seq<Val>, j: nat): Items
    requires j <= |vs|
  {
    if Grows(f) then Items(ClearItems(S, f, vs)[..j])
    else if j == 0 then Items([BlankScalar(f)])
    else Items(ClearItems(S, f, vs))
  }

  /** The message after i fields and j items of the next one were parsed. */
  function State(S: Schema, mi: nat, m: Msg, i: nat, j: nat): (r: Msg)
    requires mi < |S.msgs| && |m| == |S.msgs[mi].fields| && i <= |m| && (i < |m| ==> j <= |m[i].s|)
    ensures |r| == |m|
  {
    seq(|m|, k requires 0 <= k < |m| =>
      if k < i then Items(ClearItems(S, S.msgs[mi].fields[k], m[k].s))
      else if k == i then Mid(S, S.msgs[mi].fields[k], m[k].s, j)
      else Empty(S, mi)[k])
  }

  lemma NextField(S: Schema, mi: nat, m: Msg, i: nat)
    requires mi < |S.msgs| && Typed(S, mi, m) && i < |m|
    ensures State(S, mi, m, i, |m[i].s|) == State(S, mi, m, i + 1, 0)
  {
    hide ClearItems;
    var f, vs := S.msgs[mi].fields[i], m[i].s;
    assert TypedField(S, f, m[i]);
    assert ClearItems(S, f, vs)[..|vs|] == ClearItems(S, f, vs);
    assert Mid(S, f, vs, |vs|) == Items(ClearItems(S, f, vs));
    if i + 1 < |m| {
      NothingYet(S, mi, m, i + 1);
    }
  }

  lemma NothingYet(S: Schema, mi: nat, m: Msg, i: nat)
    requires mi < |S.msgs| && |m| == |S.msgs[mi].fields| && i < |m|
    ensures Mid(S, S.msgs[mi].fields[i], m[i].s, 0) == Empty(S, mi)[i]
  {
  }

  lemma StateEnds(S: Schema, mi: nat, m: Msg)
    requires mi < |S.msgs| && |m| == |S.msgs[mi].fields|
    ensures State(S, mi, m, 0, 0) == Empty(S, mi)
    ensures State(S, mi, m, |m|, 0) == ClearMsg(S, mi, m)
  {
    if |m| > 0 {
      NothingYet(S, mi, m, 0);
    }
  }

  /** One more item. */
  lemma NextItem(S: Schema, mi: nat, m: Msg, i: nat, j: nat)
    requires mi < |S.msgs| && Typed(S, mi, m) && i < |m| && j < |m[i].s|
    ensures var f, vs := S.msgs[mi].fields[i], m[i].s;
            var st := State(S, mi, m, i, j);
            && !Repeated(f, st[i])
            && State(S, mi, m, i, j + 1) == st[i := Put(f, Prepared(S, f, st[i]), ClearVal(S, f, vs[j]))]
  {
    hide ClearVal, Empty;
    var f, vs := S.msgs[mi].fields[i], m[i].s;
    assert TypedField(S, f, m[i]);
    MidStep(S, f, vs, j);
  }

  lemma MidStep(S: Schema, f: FieldDesc, vs: seq<Val>, j: nat)
    requires j < |vs| && TypedField(S, f, Items(vs))
    ensures !Repeated(f, Mid(S, f, vs, j))
    ensures Mid(S, f, vs, j + 1) == Put(f, Prepared(S, f, Mid(S, f, vs, j)), ClearVal(S, f, vs[j]))
  {
    hide ClearVal, TypedItem;
    var c := ClearItems(S, f, vs);
    assert c[j] == ClearItem(S, f, vs[j], j);
    assert c[..j + 1] == c[..j] + [c[j]];
    if !Grows(f) {
      assert |Items(vs).s| == 1;
      assert c == [c[0]];
      assert [BlankScalar(f)][..0] == [];
    } else {
      assert (c[..j] + [Blank(S, f)])[..j] == c[..j];
    }
  }

  /** Reading the text of all fields from the i-th on, and of the items of that field from the j-th on. */
  lemma {:induction false} FieldsBack(S: Schema, mi: nat, m: Msg, i: nat, ind: int, inc: int, rest: seq<byte>)
    requires GoodMsg(S, mi, m) && i <= |m| && EndsMsg(rest)
    ensures ReadMsg(S, mi, State(S, mi, m, i, 0), Lex(TextFrom(S, S.msgs[mi].fields, m, i, ind, inc) + rest))
         == MsgResult(ClearMsg(S, mi, m), Good, Lex(rest))
    decreases m, 3, |m| - i
  {
    hide Lex, State, TextItems, ReadMsg, ClearMsg, SafeMsg, NamesOK, SchemaOK;
    var fields := S.msgs[mi].fields;
    if i == |m| {
      assert TextFrom(S, fields, m, i, ind, inc) + rest == rest;
      StateEnds(S, mi, m);
      StopsHere(S, mi, State(S, mi, m, i, 0), Lex(rest));
    } else {
      var next := TextFrom(S, fields, m, i + 1, ind, inc);
      FieldsBack(S, mi, m, i + 1, ind, inc, rest);
      NamesOf(S, mi);
      FieldsFollow(S, fields, m, i + 1, ind, inc, rest);
      ItemsBack(S, mi, m, i, 0, ind, inc, next + rest);
      NextField(S, mi, m, i);
      assert TextFrom(S, fields, m, i, ind, inc) + rest == TextItems(S, fields[i], m[i].s, 0, ind, inc) + (next + rest);
    }
  }

  lemma StopsHere(S: Schema, mi: nat, m: Msg, p: Pos)
    requires mi < |S.msgs| && |m| == |S.msgs[mi].fields| && !p.tok.Ident?
    ensures ReadMsg(S, mi, m, p) == MsgResult(m, Good, p)
  {
  }

  lemma NamesOf(S: Schema, mi: nat)
    requires NamesOK(S) && mi < |S.msgs|
    ensures FieldNamesOK(S.msgs[mi].fields)
  {
  }

  lemma {:induction false} ItemsBack(S: Schema, mi: nat, m: Msg, i: nat, j: nat, ind: int, inc: int, more: seq<byte>)
    requires GoodMsg(S, mi, m) && i < |m| && j <= |m[i].s| && Follows(more)
    ensures ReadMsg(S, mi, State(S, mi, m, i, j),
                    Lex(TextItems(S, S.msgs[mi].fields[i], m[i].s, j, ind, inc) + more))
         == ReadMsg(S, mi, State(S, mi, m, i, |m[i].s|), Lex(more))
    decreases m, 2, |m[i].s| - j
  {
    hide Lex, State, TextItem, ReadMsg, SafeMsg, NamesOK, SchemaOK, Follows;
    var f, vs := S.msgs[mi].fields[i], m[i].s;
    if j == |vs| {
      assert TextItems(S, f, vs, j, ind, inc) + more == more;
    } else {
      var next := TextItems(S, f, vs, j + 1, ind, inc);
      ItemsBack(S, mi, m, i, j + 1, ind, inc, more);
      NamesOf(S, mi);
      ItemsFollow(S, f, vs, j + 1, ind, inc, more);
      ItemBack(S, mi, m, i, j, ind, inc, next + more);
      assert TextItems(S, f, vs, j, ind, inc) + more == TextItem(S, f, vs[j], ind, inc) + (next + more);
    }
  }

  lemma ValueOf(S: Schema, mi: nat, m: Msg, i: nat, j: nat)
    requires GoodMsg(S, mi, m) && i < |m| && j < |m[i].s|
    ensures GoodVal(S, S.msgs[mi].fields[i], m[i].s[j])
  {
    assert MsgOK(S, S.msgs[mi]);
    assert TypedField(S, S.msgs[mi].fields[i], m[i]);
    assert SafeItems(m[i].s);
  }

  /** Reading one item puts its value into the field. */
  lemma {:induction false} ItemBack(S: Schema, mi: nat, m: Msg, i: nat, j: nat, ind: int, inc: int, more: seq<byte>)
    requires GoodMsg(S, mi, m) && i < |m| && j < |m[i].s| && Follows(more)
    ensures ReadMsg(S, mi, State(S, mi, m, i, j),
                    Lex(TextItem(S, S.msgs[mi].fields[i], m[i].s[j], ind, inc) + more))
         == ReadMsg(S, mi, State(S, mi, m, i, j + 1), Lex(more))
    decreases m, 1
  {
    hide Lex, State, TextItem, TextVal, SafeMsg, NamesOK, SchemaOK, ReadMsg, ReadField, Put, Prepared, Typed;
    TypedSize(S, mi, m);
    var f, v := S.msgs[mi].fields[i], m[i].s[j];
    var st := State(S, mi, m, i, j);
    NamesOf(S, mi);
    ValueOf(S, mi, m, i, j);
    var tail := ItemFront(S, f, v, ind, inc, more);
    FindUnique(S.msgs[mi].fields, i);
    NextItem(S, mi, m, i, j);
    if f.kind == PTR {
      LastIsBlank(S, f, st[i]);
      NestedBack(S, f, Prepared(S, f, st[i]), v, ind, inc, more);
    } else {
      ScalarFieldBack(S, f, Prepared(S, f, st[i]), v, ind, inc, more);
      NotNested(S, f, v);
    }
    ReadsOn(S, mi, st, i, Pos(Ident(f.name), tail), Put(f, Prepared(S, f, st[i]), ClearVal(S, f, v)), Lex(more));
  }

  lemma NotNested(S: Schema, f: FieldDesc, v: Val)
    requires f.kind != PTR && TypedItem(S, f, v)
    ensures ClearVal(S, f, v) == v
  {
  }

  lemma LastIsBlank(S: Schema, f: FieldDesc, items: Items)
    requires f.kind == PTR && f.tag1 < |S.msgs|
    ensures var r := Prepared(S, f, items);
            r.s != [] && r.s[|r.s| - 1] == VMsg(Empty(S, f.tag1))
  {
  }

  /** One round of the parser's loop, its field being known. */
  lemma {:induction false} ReadsOn(S: Schema, mi: nat, m: Msg, i: nat, p: Pos, items: Items, q: Pos)
    requires mi < |S.msgs| && |m| == |S.msgs[mi].fields| && i < |m|
    requires p.tok.Ident? && FindField(S.msgs[mi].fields, p.tok.s) == Some(i)
    requires !Repeated(S.msgs[mi].fields[i], m[i])
    requires ReadField(S, S.msgs[mi].fields[i], Prepared(S, S.msgs[mi].fields[i], m[i]), Lex(p.rest))
          == FieldResult(items, Good, q)
    requires q.tok.Ident? || q.tok == Eof || q.tok == Punct(CLOSE)
    ensures ReadMsg(S, mi, m, p) == ReadMsg(S, mi, m[i := items], q)
  {
    hide ReadField, Lex;
  }

  /** A message in braces. */
  lemma {:induction false} NestedBack(S: Schema, f: FieldDesc, items: Items, v: Val, ind: int, inc: int,
      more: seq<byte>)
    requires GoodVal(S, f, v) && f.kind == PTR && Follows(more)
    requires items.s != [] && items.s[|items.s| - 1] == VMsg(Empty(S, f.tag1))
    ensures ReadField(S, f, items, Lex([SPACE] + (TextVal(S, f, v, ind, inc) + ([Break(inc)] + more))))
         == FieldResult(Put(f, items, ClearVal(S, f, v)), Good, Lex(more))
    decreases v, 4
  {
    hide Lex, SchemaOK, NamesOK, SafeMsg, Typed, ReadMsg, TextFrom, Put, ClearMsg, TextVal, ReadField, Spaces;
    hide State, Empty;
    TypedSize(S, f.tag1, v.m);
    var body := TextFrom(S, S.msgs[f.tag1].fields, v.m, 0, ind + inc, inc);
    var tail := [Break(inc)] + more;
    var close := Spaces(ind) + ([CLOSE] + tail);
    var q := Braces(S, f, v, ind, inc, tail);
    ClosesMsg(ind, tail);
    StateEnds(S, f.tag1, v.m);
    FieldsBack(S, f.tag1, v.m, 0, ind + inc, inc, close);
    LexBreak(inc, more);
    NestedReads(S, f, items, q, ClearMsg(S, f.tag1, v.m), tail);
  }

  /** Reading a message in braces, its fields being known. */
  lemma {:induction false} NestedReads(S: Schema, f: FieldDesc, items: Items, q: Pos, m: Msg, tail: seq<byte>)
    requires f.kind == PTR && f.tag1 < |S.msgs| && q.tok == Punct(OPEN)
    requires items.s != [] && items.s[|items.s| - 1] == VMsg(Empty(S, f.tag1))
    requires ReadMsg(S, f.tag1, Empty(S, f.tag1), Lex(q.rest)) == MsgResult(m, Good, Pos(Punct(CLOSE), tail))
    ensures ReadField(S, f, items, q) == FieldResult(Put(f, items, VMsg(m)), Good, Lex(tail))
  {
    hide Lex, ReadMsg, Put, Empty;
  }

  /** The text of a message in braces, token by token up to its first field. */
  lemma Braces(S: Schema, f: FieldDesc, v: Val, ind: int, inc: int, tail: seq<byte>) returns (q: Pos)
    requires v.VMsg? && f.tag1 < |S.msgs| && |v.m| == |S.msgs[f.tag1].fields|
    ensures q == Lex([SPACE] + (TextVal(S, f, v, ind, inc) + tail)) && q.tok == Punct(OPEN)
    ensures Lex(q.rest)
         == Lex(TextFrom(S, S.msgs[f.tag1].fields, v.m, 0, ind + inc, inc) + (Spaces(ind) + ([CLOSE] + tail)))
  {
    hide Lex, TextFrom;
    var body := TextFrom(S, S.msgs[f.tag1].fields, v.m, 0, ind + inc, inc);
    var close := Spaces(ind) + ([CLOSE] + tail);
    var open := [Break(inc)] + (body + close);
    assert TextVal(S, f, v, ind, inc) + tail == [OPEN] + open;
    LexAfterBlank([OPEN] + open);
    PunctRoundTrip(OPEN, open);
    LexBreak(inc, body + close);
    q := Pos(Punct(OPEN), open);
  }

  lemma TypedSize(S: Schema, mi: nat, m: Msg)
    requires mi < |S.msgs| && Typed(S, mi, m)
    ensures |m| == |S.msgs[mi].fields|
  {
  }

  lemma ClosesMsg(ind: int, tail: seq<byte>)
    ensures var close := Spaces(ind) + ([CLOSE] + tail);
            Lex(close) == Pos(Punct(CLOSE), tail) && EndsMsg(close)
  {
    hide Lex, SkipSpaces;
    LexIndented(ind, [CLOSE] + tail);
    PunctRoundTrip(CLOSE, tail);
    NoSpace([CLOSE] + tail);
  }

  /** Printing any message with any indentation and parsing the text succeeds, takes all of it, and gives
      the message back, except that the first element of every list of bools is cleared. */
  lemma RoundTrip(S: Schema, mi: nat, m: Msg, inc: int)
    requires GoodMsg(S, mi, m)
    ensures |m| == |S.msgs[mi].fields|
    ensures ReadAll(S, mi, Text(S, mi, m, inc)) == MsgResult(ClearMsg(S, mi, m), Good, Pos(Eof, []))
  {
    hide ReadMsg, TextFrom, ClearMsg, SafeMsg, NamesOK, SchemaOK, Typed;
    TypedSize(S, mi, m);
    NothingFollows();
    StateEnds(S, mi, m);
    FieldsBack(S, mi, m, 0, 0, inc, []);
    var text := TextFrom(S, S.msgs[mi].fields, m, 0, 0, inc);
    assert text + [] == text;
  }

  lemma NothingFollows()
    ensures Lex([]) == Pos(Eof, []) && EndsMsg([])
  {
    assert SkipSpaces([]) == [];
  }

  /** Every list of bools is empty or begins with false. */
  predicate FirstsFalse(S: Schema, mi: nat, m: Msg)
    requires mi < |S.msgs| && |m| == |S.msgs[mi].fields|
    decreases m, 2
  {
    forall i :: 0 <= i < |m| ==> FirstFalse(S, S.msgs[mi].fields[i], m[i].s)
  }

  predicate FirstFalse(S: Schema, f: FieldDesc, vs: seq<Val>)
    decreases vs, 1
  {
    && (f.list && f.kind == BOOL && vs != [] ==> vs[0] == VBool(false))
    && (forall j :: 0 <= j < |vs| ==> FirstFalseVal(S, f, vs[j]))
  }

  predicate FirstFalseVal(S: Schema, f: FieldDesc, v: Val)
    decreases v, 0
  {
    v.VMsg? && f.tag1 < |S.msgs| && |v.m| == |S.msgs[f.tag1].fields| ==> FirstsFalse(S, f.tag1, v.m)
  }

  /** The message comes back unchanged exactly if every list of bools in it is empty or begins with false. */
  lemma RoundTripIff(S: Schema, mi: nat, m: Msg, inc: int)
    requires GoodMsg(S, mi, m)
    ensures |m| == |S.msgs[mi].fields|
    ensures ReadAll(S, mi, Text(S, mi, m, inc)) == MsgResult(m, Good, Pos(Eof, [])) <==> FirstsFalse(S, mi, m)
  {
    hide ReadMsg, TextFrom, ClearMsg, SafeMsg, NamesOK, SchemaOK, Typed, FirstsFalse, ReadAll;
    TypedSize(S, mi, m);
    RoundTrip(S, mi, m, inc);
    ClearIff(S, mi, m);
  }

  lemma {:induction false} ClearIff(S: Schema, mi: nat, m: Msg)
    requires mi < |S.msgs| && |m| == |S.msgs[mi].fields|
    ensures ClearMsg(S, mi, m) == m <==> FirstsFalse(S, mi, m)
    decreases m, 2
  {
    hide ClearItems, FirstFalse;
    forall i | 0 <= i < |m|
      ensures Items(ClearItems(S, S.msgs[mi].fields[i], m[i].s)) == m[i]
         <==> FirstFalse(S, S.msgs[mi].fields[i], m[i].s)
    {
      ClearItemsIff(S, S.msgs[mi].fields[i], m[i].s);
    }
    var c := ClearMsg(S, mi, m);
    assert forall i :: 0 <= i < |m| ==> c[i] == Items(ClearItems(S, S.msgs[mi].fields[i], m[i].s));
  }

  lemma {:induction false} ClearItemsIff(S: Schema, f: FieldDesc, vs: seq<Val>)
    ensures ClearItems(S, f, vs) == vs <==> FirstFalse(S, f, vs)
    decreases vs, 1
  {
    hide ClearVal, FirstFalseVal;
    forall j | 0 <= j < |vs|
      ensures ClearVal(S, f, vs[j]) == vs[j] <==> FirstFalseVal(S, f, vs[j])
      ensures vs[j].VBool? ==> ClearVal(S, f, vs[j]) == vs[j]
    {
      ClearValIff(S, f, vs[j]);
    }
    var c := ClearItems(S, f, vs);
    assert forall j :: 0 <= j < |vs| ==> c[j] == ClearItem(S, f, vs[j], j);
  }

  lemma {:induction false} ClearValIff(S: Schema, f: FieldDesc, v: Val)
    ensures ClearVal(S, f, v) == v <==> FirstFalseVal(S, f, v)
    ensures v.VBool? ==> ClearVal(S, f, v) == v
    decreases v, 0
  {
    if v.VMsg? && f.tag1 < |S.msgs| && |v.m| == |S.msgs[f.tag1].fields| {
      ClearIff(S, f.tag1, v.m);
    }
  }

  /** A message with the one list of bools [true] comes back with [false]. */
  lemma {:induction false} FirstBoolLost(S: Schema, m: Msg, inc: int)
    requires S == Schema([], [], [MsgDesc([109], [FieldDesc([98], BOOL, true, 0, 0)], 0, 1)])
    requires m == [Items([VBool(true)])]
    ensures GoodMsg(S, 0, m)
    ensures ReadAll(S, 0, Text(S, 0, m, inc)) == MsgResult([Items([VBool(false)])], Good, Pos(Eof, []))
  {
    hide ReadAll, Text;
    OneBoolList(S, m);
    var f := S.msgs[0].fields[0];
    assert ClearItem(S, f, m[0].s[0], 0) == VBool(false);
    assert ClearItems(S, f, m[0].s) == [VBool(false)];
    assert ClearMsg(S, 0, m) == [Items([VBool(false)])];
    hide GoodMsg, ClearMsg;
    RoundTrip(S, 0, m, inc);
  }

  lemma {:induction false} OneBoolList(S: Schema, m: Msg)
    requires S == Schema([], [], [MsgDesc([109], [FieldDesc([98], BOOL, true, 0, 0)], 0, 1)])
    requires m == [Items([VBool(true)])]
    ensures GoodMsg(S, 0, m)
  {
    var f := S.msgs[0].fields[0];
    assert IsPtr(f) && FieldOK(S, f) && IsName(f.name);
    assert TypedItem(S, f, m[0].s[0]) && TypedField(S, f, m[0]);
    assert SafeVal(m[0].s[0]) && SafeItems(m[0].s);
  }
}
