/** The text form of messages from the writer's side (lib/parse.c): every way to write a field, what it stores,
    and what is refused, told over the input bytes. */
module Grammar {
  import opened Bytes
  import opened Lexer
  import opened Schemas
  import opened Views
  import opened ValueParser
  import K = Tokens
  import X = Lexemes
  import R = TextRoundTrip
  import T = Texts
  import W = TextLines
  import opened Pool
  import P = PoolParser
  import PS = ParseSim
  import F = TextFormat

  /** A value as it is written: a number in decimal digits, a bare word, or a string in quotes. */
  datatype Written = Number(n: int) | Word(s: seq<byte>) | Quote(s: seq<byte>)

  function WrittenText(w: Written): seq<byte> {
    match w
    case Number(n) => W.Decimal(n)
    case Word(s) => s
    case Quote(s) => Ascii("\"") + W.AllQuoted(s) + Ascii("\"")
  }

  /** Numbers of 64 bits, signed or unsigned; words are identifiers; strings survive quoting. */
  predicate ValidWritten(w: Written) {
    match w
    case Number(n) => -9223372036854775808 <= n <= 18446744073709551615
    case Word(s) => K.IsName(s)
    case Quote(s) => K.Safe(s)
  }

  // ---------------------------------------------------------------- what a field stores

  /** k is n cut to `size` values from lo on. */
  predicate Residue(n: int, lo: int, size: nat, k: int)
    requires size > 0
  {
    lo <= k < lo + size && (k - n) % size == 0
  }

  /** The first entry of an enum of that name. */
  predicate FirstNamed(values: seq<EnumDesc>, name: seq<byte>, i: nat) {
    i < |values| && values[i].name == name && forall j :: 0 <= j < i ==> values[j].name != name
  }

  /** Field f stores x when w is written. */
  ghost predicate Stores(S: Schema, f: FieldDesc, w: Written, x: Val) {
    match f.kind
    case BOOL =>
      (match w
       case Number(n) => x == VBool(n != 0)
       case Word(s) => (s == Ascii("true") && x == VBool(true)) || (s == Ascii("false") && x == VBool(false))
       case Quote(_) => false)
    case ENUM =>
      x.VInt? && f.tag1 < |S.enums|
      && (match w
          case Number(n) => Residue(n, 0, 65536, x.v)
          case Word(s) =>
            exists i: nat :: FirstNamed(S.enums[f.tag1].values, s, i)
                             && Residue(S.enums[f.tag1].values[i].value, 0, 65536, x.v)
          case Quote(_) => false)
    case INT => w.Number? && x.VInt? && Residue(w.n, 0 - Pow256(f.tag1) / 2, Pow256(f.tag1), x.v)
    case UINT => w.Number? && x.VInt? && Residue(w.n, 0, Pow256(f.tag1), x.v)
    case STR => !w.Number? && x == VStr(w.s)
    case _ => false
  }

  /** What a field rejects, and how: strings must be words or in quotes, which is asserted; everything else
      ends the parser with an error. */
  ghost predicate Rejects(S: Schema, f: FieldDesc, w: Written, st: Status) {
    match f.kind
    case BOOL => st == Bad && (w.Quote? || (w.Word? && w.s != Ascii("true") && w.s != Ascii("false")))
    case ENUM =>
      st == Bad && f.tag1 < |S.enums|
      && (w.Quote?
          || (w.Word?
              && forall i :: 0 <= i < |S.enums[f.tag1].values| ==> S.enums[f.tag1].values[i].name != w.s))
    case INT => st == Bad && !w.Number?
    case UINT => st == Bad && !w.Number?
    case STR => st == Aborted && w.Number?
    case _ => false
  }

  lemma ResidueUnique(n: int, lo: int, size: nat, k: int, l: int)
    requires size > 0 && Residue(n, lo, size, k) && Residue(n, lo, size, l)
    ensures k == l
  {
    var a, b := (k - n) / size, (l - n) / size;
    assert k - n == a * size && l - n == b * size;
    assert k - l == (a - b) * size by { assert a * size - b * size == (a - b) * size; }
    var d := a - b;
    hide *;
    NotFar(d, size, k - l);
  }

  lemma NotFar(d: int, size: nat, x: int)
    requires size > 0 && x == d * size && 0 - size < x < size
    ensures x == 0
  {
    if x >= 0 {
      ModUnique(x, size, 0, x);
      ModUnique(x, size, d, 0);
    } else {
      assert 0 - x == (0 - d) * size;
      ModUnique(0 - x, size, 0, 0 - x);
      ModUnique(0 - x, size, 0 - d, 0);
    }
  }

  /** Either one value is stored, or the text is refused. */
  lemma StoresOrRejects(S: Schema, f: FieldDesc, w: Written, x: Val, y: Val, st: Status)
    requires FieldOK(S, f) && f.kind != PTR
    ensures Stores(S, f, w, x) && Stores(S, f, w, y) ==> x == y
    ensures !(Stores(S, f, w, x) && Rejects(S, f, w, st))
  {
    hide Pow256;
    Pow256Values();
    if Stores(S, f, w, x) && Stores(S, f, w, y) && x.VInt? {
      if f.kind == ENUM && w.Word? {
        var values := S.enums[f.tag1].values;
        var i: nat :| FirstNamed(values, w.s, i) && Residue(values[i].value, 0, 65536, x.v);
        var j: nat :| FirstNamed(values, w.s, j) && Residue(values[j].value, 0, 65536, y.v);
        assert i == j;
        ResidueUnique(values[i].value, 0, 65536, x.v, y.v);
      } else if f.kind == ENUM {
        ResidueUnique(w.n, 0, 65536, x.v, y.v);
      } else if f.kind == INT {
        ResidueUnique(w.n, 0 - Pow256(f.tag1) / 2, Pow256(f.tag1), x.v, y.v);
      } else {
        ResidueUnique(w.n, 0, Pow256(f.tag1), x.v, y.v);
      }
    }
  }

  // ---------------------------------------------------------------- the tokens behind it

  function TokenOf(w: Written): Token {
    match w
    case Number(n) => Int(if n < I63 then n else n - I64)
    case Word(s) => Ident(s)
    case Quote(s) => Str(s)
  }

  /** A written value, with white space behind it, is one token. */
  lemma WrittenLex(w: Written, more: seq<byte>) returns (rest: seq<byte>)
    requires ValidWritten(w) && more != [] && IsSpace(more[0]) && K.NoLiteral(more)
    ensures Lex(WrittenText(w) + more) == Pos(TokenOf(w), rest) && Lex(rest) == Lex(more)
  {
    hide Lex, W.Decimal, W.AllQuoted, SkipSpaces, K.Safe, K.IsName, K.NoLiteral;
    match w
    case Number(n) =>
      W.IntIs(n);
      K.NumberRoundTrip(n, more);
      rest := more;
    case Word(s) =>
      NotInName(more);
      K.NameRoundTrip(s, more);
      rest := more;
    case Quote(s) =>
      W.AllQuotedIs(s);
      assert Ascii("\"") == [QUOTE];
      K.StringRoundTrip(s, more);
      R.LexOfSkip(more);
      rest := SkipSpaces(more);
  }

  lemma NotInName(more: seq<byte>)
    requires more != [] && IsSpace(more[0])
    ensures !IsIdentChar(more[0])
  {
  }

  /** The value that the parser takes from the token is the one that the field stores. */
  lemma TokenStores(S: Schema, f: FieldDesc, w: Written, x: Val) returns (v: Val)
    requires FieldOK(S, f) && ValidWritten(w) && Stores(S, f, w, x)
    ensures ReadLiteral(S, f, TokenOf(w)) == Lit(v) && Narrow(f, v) == x
  {
    hide Pow256;
    Pow256Values();
    assert Ascii("true") == T.TRUE && Ascii("false") == T.FALSE;
    match f.kind
    case BOOL => v := x;
    case STR => v := x;
    case ENUM =>
      if w.Number? {
        v := VInt(TokenOf(w).v);
        WordResidue(w.n, 0, 65536, x.v);
        EnumNarrow(f, v.v, x.v);
      } else {
        var i: nat :| FirstNamed(S.enums[f.tag1].values, w.s, i)
                      && Residue(S.enums[f.tag1].values[i].value, 0, 65536, x.v);
        NamedValue(S.enums[f.tag1].values, w.s, i);
        v := VInt(S.enums[f.tag1].values[i].value);
        EnumNarrow(f, v.v, x.v);
      }
    case INT =>
      v := VInt(TokenOf(w).v);
      WordResidue(w.n, 0 - Pow256(f.tag1) / 2, Pow256(f.tag1), x.v);
      SignedNarrow(f, v.v, x.v);
    case UINT =>
      v := VInt(TokenOf(w).v);
      WordResidue(w.n, 0, Pow256(f.tag1), x.v);
      ResidueMod(v.v, Pow256(f.tag1), x.v);
  }

  /** A 64-bit word read as signed has the same residues. */
  lemma WordResidue(n: int, lo: int, size: nat, k: int)
    requires size in {0x100, 0x1_0000, 0x1_0000_0000, 0x1_0000_0000_0000_0000} && Residue(n, lo, size, k)
    ensures Residue(if n < I63 then n else n - I64, lo, size, k)
  {
    var q := (k - n) / size;
    assert k - n == q * size;
    var m := I64 / size;
    assert m * size == I64;
    hide *;
    assert k - (n - I64) == (q + m) * size;
    ModUnique(k - (n - I64), size, q + m, 0);
  }

  lemma ResidueMod(n: int, size: nat, k: int)
    requires size > 0 && Residue(n, 0, size, k)
    ensures n % size == k
  {
    var q := (k - n) / size;
    assert k - n == q * size;
    hide *;
    assert n == (0 - q) * size + k;
    ModUnique(n, size, 0 - q, k);
  }

  lemma EnumNarrow(f: FieldDesc, n: int, k: int)
    requires f.kind == ENUM && Residue(n, 0, 65536, k)
    ensures Narrow(f, VInt(n)) == VInt(k)
  {
    ResidueMod(n, 65536, k);
  }

  lemma SignedNarrow(f: FieldDesc, n: int, k: int)
    requires f.kind == INT && f.tag1 in {1, 2, 4, 8}
    requires Residue(n, 0 - Pow256(f.tag1) / 2, Pow256(f.tag1), k)
    ensures Narrow(f, VInt(n)) == VInt(k)
  {
    hide Pow256;
    Pow256Values();
    var size := Pow256(f.tag1);
    var u := if k < 0 then k + size else k;
    UnsignedResidue(n, size, k, u);
    ResidueMod(n, size, u);
  }

  lemma UnsignedResidue(n: int, size: nat, k: int, u: int)
    requires size > 0 && (k - n) % size == 0 && 0 <= u < size && (u == k || u == k + size)
    ensures Residue(n, 0, size, u)
  {
    var q := (k - n) / size;
    assert k - n == q * size;
    hide Residue;
    ModUnique(k + size - n, size, q + 1, 0);
  }

  lemma {:induction false} NamedValue(values: seq<EnumDesc>, name: seq<byte>, i: nat)
    requires FirstNamed(values, name, i)
    ensures EnumValue(values, name) == Some(values[i].value)
    decreases i
  {
    if i > 0 {
      assert values[0].name != name;
      assert values[1..][i - 1] == values[i];
      NamedValue(values[1..], name, i - 1);
    }
  }

  lemma TokenRejected(S: Schema, f: FieldDesc, w: Written, st: Status)
    requires FieldOK(S, f) && Rejects(S, f, w, st)
    ensures ReadLiteral(S, f, TokenOf(w)) == if st == Aborted then Crash else NoLit
  {
    assert Ascii("true") == T.TRUE && Ascii("false") == T.FALSE;
    if f.kind == ENUM && w.Word? {
      assert EnumValue(S.enums[f.tag1].values, w.s).None?;
    }
  }

  // ---------------------------------------------------------------- whole messages

  /** One field of a message as it is written: with the value that is stored, or with the fields of a message
      in braces, behind a colon or not.  A comma or a semicolon may follow. */
  datatype Entry =
    | Value(i: nat, w: Written, x: Val, sep: seq<byte>)
    | Nested(i: nat, colon: bool, body: seq<Entry>, sep: seq<byte>)

  /** White space between tokens. */
  predicate Gap(gap: seq<byte>) {
    gap != [] && forall i :: 0 <= i < |gap| ==> IsSpace(gap[i])
  }

  predicate Separator(sep: seq<byte>) {
    sep == [] || sep == Ascii(",") || sep == Ascii(";")
  }

  /** Field i is the first of its name, and the name is an identifier. */
  predicate Named(fields: seq<FieldDesc>, i: nat) {
    i < |fields| && K.IsName(fields[i].name) && forall j :: 0 <= j < i ==> fields[j].name != fields[i].name
  }

  /** A value goes to the end of a list, whose first bool stays false; otherwise it replaces the old one. */
  function Added(f: FieldDesc, items: Items, x: Val): Items {
    if !f.list then Items([x])
    else if f.kind == BOOL && items.s == [] then Items([VBool(false)])
    else Items(items.s + [x])
  }

  /** The message after one entry. */
  function Entered(S: Schema, mi: nat, m: Msg, e: Entry): (r: Msg)
    requires mi < |S.msgs| && |m| == |S.msgs[mi].fields| && e.i < |m|
    ensures |r| == |m|
    decreases e, 0
  {
    match e
    case Value(i, _, x, _) => m[i := Added(S.msgs[mi].fields[i], m[i], x)]
    case Nested(i, _, body, _) =>
      var mj := S.msgs[mi].fields[i].tag1;
      m[i := Items(m[i].s + [VMsg(if mj < |S.msgs| then After(S, mj, Empty(S, mj), body) else [])])]
  }

  /** The message after all entries. */
  function After(S: Schema, mi: nat, m: Msg, es: seq<Entry>): (r: Msg)
    requires mi < |S.msgs| && |m| == |S.msgs[mi].fields|
    ensures |r| == |m|
    decreases es
  {
    if es == [] then m
    else if es[0].i >= |m| then m
    else After(S, mi, Entered(S, mi, m, es[0]), es[1..])
  }

  /** The entry fits its field; a single message is given once. */
  ghost predicate ValidEntry(S: Schema, mi: nat, m: Msg, e: Entry)
    requires mi < |S.msgs| && |m| == |S.msgs[mi].fields|
    decreases e, 0
  {
    && Named(S.msgs[mi].fields, e.i) && Separator(e.sep)
    && var f := S.msgs[mi].fields[e.i];
       FieldOK(S, f)
       && match e
          case Value(i, w, x, _) =>
            f.kind != PTR && ValidWritten(w) && Stores(S, f, w, x) && (!f.list ==> |m[i].s| == 1)
          case Nested(i, _, body, _) =>
            f.kind == PTR && (!f.list ==> m[i].s == []) && ValidEntries(S, f.tag1, Empty(S, f.tag1), body)
  }

  ghost predicate ValidEntries(S: Schema, mi: nat, m: Msg, es: seq<Entry>)
    requires mi < |S.msgs| && |m| == |S.msgs[mi].fields|
    decreases es
  {
    es == []
    || (ValidEntry(S, mi, m, es[0]) && es[0].i < |m| && ValidEntries(S, mi, Entered(S, mi, m, es[0]), es[1..]))
  }

  function EntryText(S: Schema, mi: nat, e: Entry, gap: seq<byte>): seq<byte>
    requires mi < |S.msgs|
    decreases e, 0
  {
    if e.i >= |S.msgs[mi].fields| then []
    else
      var f := S.msgs[mi].fields[e.i];
      match e
      case Value(_, w, _, sep) => f.name + gap + Ascii(":") + gap + WrittenText(w) + gap + sep + gap
      case Nested(_, colon, body, sep) =>
        f.name + gap + (if colon then Ascii(":") else []) + gap + Ascii("{") + gap
        + (if f.tag1 < |S.msgs| then EntriesText(S, f.tag1, body, gap) else []) + Ascii("}") + gap + sep + gap
  }

  function EntriesText(S: Schema, mi: nat, es: seq<Entry>, gap: seq<byte>): seq<byte>
    requires mi < |S.msgs|
    decreases es
  {
    if es == [] then [] else EntryText(S, mi, es[0], gap) + EntriesText(S, mi, es[1..], gap)
  }

  // ---------------------------------------------------------------- reading them

  /** No separator and no further string literal comes next. */
  predicate Goes(more: seq<byte>) {
    K.NoLiteral(more) && Lex(more).tok != Punct(COMMA) && Lex(more).tok != Punct(SEMICOLON)
  }

  /** And no further field. */
  predicate Stops(rest: seq<byte>) {
    Goes(rest) && !Lex(rest).tok.Ident?
  }

  lemma GapLex(gap: seq<byte>, rest: seq<byte>)
    requires Gap(gap)
    ensures Lex(gap + rest) == Lex(rest) && (K.NoLiteral(gap + rest) <==> K.NoLiteral(rest))
    ensures gap + rest != [] && IsSpace((gap + rest)[0]) && !IsIdentChar((gap + rest)[0])
  {
    hide Lex, SkipSpaces;
    K.LexSkips(gap, rest);
    NotInName(gap + rest);
  }

  /** Behind a value: an optional separator, and what follows. */
  lemma SepLex(sep: seq<byte>, gap: seq<byte>, more: seq<byte>)
    requires Separator(sep) && Gap(gap) && Goes(more)
    ensures SkipComma(Lex(gap + (sep + (gap + more)))) == Lex(more) && K.NoLiteral(gap + (sep + (gap + more)))
  {
    hide Lex, SkipSpaces, Gap;
    GapLex(gap, sep + (gap + more));
    GapLex(gap, more);
    assert Ascii(",") == [COMMA] && Ascii(";") == [SEMICOLON];
    if sep == [] {
      assert sep + (gap + more) == gap + more;
    } else {
      K.PunctRoundTrip(sep[0], gap + more);
      assert sep == [sep[0]];
      K.NoSpace(sep + (gap + more));
    }
  }

  /** One round of the parser's loop. */
  lemma {:induction false} Round(S: Schema, mi: nat, m: Msg, i: nat, p: Pos, items: Items, q: Pos)
    requires mi < |S.msgs| && |m| == |S.msgs[mi].fields| && Named(S.msgs[mi].fields, i)
    requires p.tok == Ident(S.msgs[mi].fields[i].name) && !Repeated(S.msgs[mi].fields[i], m[i])
    requires ReadField(S, S.msgs[mi].fields[i], Prepared(S, S.msgs[mi].fields[i], m[i]), Lex(p.rest))
          == FieldResult(items, Good, q)
    ensures ReadMsg(S, mi, m, p) == ReadMsg(S, mi, m[i := items], SkipComma(q))
  {
    hide ReadField, Lex, SkipComma;
    FirstField(S.msgs[mi].fields, i);
  }

  lemma FirstField(fields: seq<FieldDesc>, i: nat)
    requires Named(fields, i)
    ensures FindField(fields, fields[i].name) == Some(i)
  {
  }

  lemma PutAdded(S: Schema, f: FieldDesc, items: Items, x: Val)
    requires f.kind != PTR && (!f.list ==> |items.s| == 1)
    ensures Put(f, Prepared(S, f, items), x) == Added(f, items, x) && !Repeated(f, items)
    ensures FieldOK(S, f) && f.kind == BOOL ==> Blank(S, f) == VBool(false)
  {
    if f.list {
      var s := items.s + [Blank(S, f)];
      assert s[..|s| - 1] == items.s;
    }
  }

  /** Colon, value, separator. */
  lemma ValueReads(S: Schema, f: FieldDesc, items: Items, w: Written, x: Val, sep: seq<byte>, gap: seq<byte>,
      more: seq<byte>)
    returns (q: Pos)
    requires FieldOK(S, f) && f.kind != PTR && ValidWritten(w) && Stores(S, f, w, x)
    requires Gap(gap) && Separator(sep) && Goes(more)
    ensures ReadField(S, f, items, Lex(gap + (Ascii(":") + (gap + (WrittenText(w) + (gap + (sep + (gap + more))))))))
         == FieldResult(Put(f, items, x), Good, q)
    ensures SkipComma(q) == Lex(more)
  {
    hide Lex, WrittenText, ReadLiteral, Narrow, Put, Stores, ValidWritten, Gap, Separator, Goes, K.NoLiteral;
    hide SkipComma;
    var tail := gap + (sep + (gap + more));
    var val := WrittenText(w) + tail;
    SepLex(sep, gap, more);
    GapLex(gap, sep + (gap + more));
    GapLex(gap, Ascii(":") + (gap + val));
    GapLex(gap, val);
    assert Ascii(":") == [COLON];
    K.PunctRoundTrip(COLON, gap + val);
    var rest := WrittenLex(w, tail);
    var v := TokenStores(S, f, w, x);
    q := Lex(tail);
  }

  /** An entry begins with the name of its field. */
  lemma NameLex(name: seq<byte>, gap: seq<byte>, tail: seq<byte>)
    requires K.IsName(name) && Gap(gap)
    ensures Lex(name + (gap + tail)) == Pos(Ident(name), gap + tail) && Goes(name + (gap + tail))
  {
    hide Lex, K.IsName, K.NoLiteral;
    GapLex(gap, tail);
    K.NameRoundTrip(name, gap + tail);
    R.NameFront(name, gap + tail);
  }

  lemma {:induction false} EntriesFollow(S: Schema, mi: nat, m: Msg, es: seq<Entry>, gap: seq<byte>, rest: seq<byte>)
    requires mi < |S.msgs| && |m| == |S.msgs[mi].fields| && ValidEntries(S, mi, m, es) && Gap(gap) && Goes(rest)
    ensures Goes(EntriesText(S, mi, es, gap) + rest)
    decreases es
  {
    hide Goes, EntryText, Gap, ValidEntry, Entered, K.IsName, Empty;
    if es == [] {
      assert EntriesText(S, mi, es, gap) + rest == rest;
    } else {
      var next := EntriesText(S, mi, es[1..], gap);
      assert EntriesText(S, mi, es, gap) == EntryText(S, mi, es[0], gap) + next;
      hide EntriesText;
      EntriesFollow(S, mi, Entered(S, mi, m, es[0]), es[1..], gap, rest);
      EntryNamed(S, mi, m, es[0]);
      hide ValidEntries;
      EntryFront(S, mi, m, es[0], gap, next + rest);
      Assoc(EntryText(S, mi, es[0], gap), next, rest);
    }
  }

  lemma Assoc(x: seq<byte>, y: seq<byte>, z: seq<byte>)
    ensures (x + y) + z == x + (y + z)
  {
  }

  lemma {:induction false} EntryNamed(S: Schema, mi: nat, m: Msg, e: Entry)
    requires mi < |S.msgs| && |m| == |S.msgs[mi].fields| && ValidEntry(S, mi, m, e)
    ensures Named(S.msgs[mi].fields, e.i)
    ensures e.Nested? ==> S.msgs[mi].fields[e.i].tag1 < |S.msgs|
  {
    hide K.IsName;
  }

  /** What stands behind the name and the white space of an entry. */
  function Behind(S: Schema, mi: nat, e: Entry, gap: seq<byte>, more: seq<byte>): seq<byte>
    requires mi < |S.msgs| && e.i < |S.msgs[mi].fields|
  {
    match e
    case Value(_, w, _, sep) => Ascii(":") + (gap + (WrittenText(w) + (gap + (sep + (gap + more)))))
    case Nested(_, colon, body, sep) =>
      (if colon then Ascii(":") else [])
      + (gap + (Ascii("{") + (gap
      + ((if S.msgs[mi].fields[e.i].tag1 < |S.msgs| then EntriesText(S, S.msgs[mi].fields[e.i].tag1, body, gap) else [])
         + (Ascii("}") + (gap + (sep + (gap + more))))))))
  }

  lemma EntryFront(S: Schema, mi: nat, m: Msg, e: Entry, gap: seq<byte>, more: seq<byte>)
    requires mi < |S.msgs| && |m| == |S.msgs[mi].fields| && Named(S.msgs[mi].fields, e.i) && Gap(gap)
    ensures var name := S.msgs[mi].fields[e.i].name;
            && EntryText(S, mi, e, gap) + more == name + (gap + Behind(S, mi, e, gap, more))
            && Lex(EntryText(S, mi, e, gap) + more) == Pos(Ident(name), gap + Behind(S, mi, e, gap, more))
            && Goes(EntryText(S, mi, e, gap) + more)
  {
    hide Lex, Goes, Gap, WrittenText, EntriesText, K.IsName, Ascii;
    FrontText(S, mi, e, gap, more);
    NameLex(S.msgs[mi].fields[e.i].name, gap, Behind(S, mi, e, gap, more));
  }

  lemma FrontText(S: Schema, mi: nat, e: Entry, gap: seq<byte>, more: seq<byte>)
    requires mi < |S.msgs| && e.i < |S.msgs[mi].fields|
    ensures EntryText(S, mi, e, gap) + more == S.msgs[mi].fields[e.i].name + (gap + Behind(S, mi, e, gap, more))
  {
    hide WrittenText, EntriesText, Ascii;
    var f := S.msgs[mi].fields[e.i];
    match e
    case Value(_, w, _, sep) => ValueParts(f.name, Ascii(":"), WrittenText(w), sep, gap, more);
    case Nested(_, colon, body, sep) =>
      var text := if f.tag1 < |S.msgs| then EntriesText(S, f.tag1, body, gap) else [];
      NestedParts(f.name, if colon then Ascii(":") else [], Ascii("{"), text, Ascii("}"), sep, gap, more);
  }

  lemma ValueParts(name: seq<byte>, colon: seq<byte>, w: seq<byte>, sep: seq<byte>, gap: seq<byte>, more: seq<byte>)
    ensures (name + gap + colon + gap + w + gap + sep + gap) + more
         == name + (gap + (colon + (gap + (w + (gap + (sep + (gap + more)))))))
  {
    var a := colon + gap + w + gap + sep + gap;
    assert a + more == colon + (gap + (w + (gap + (sep + (gap + more)))));
    assert name + gap + colon + gap + w + gap + sep + gap == name + gap + a;
  }

  lemma NestedParts(name: seq<byte>, colon: seq<byte>, open: seq<byte>, text: seq<byte>, close: seq<byte>,
      sep: seq<byte>, gap: seq<byte>, more: seq<byte>)
    ensures (name + gap + colon + gap + open + gap + text + close + gap + sep + gap) + more
         == name + (gap + (colon + (gap + (open + (gap + (text + (close + (gap + (sep + (gap + more))))))))))
  {
    var a := close + gap + sep + gap;
    var b := colon + gap + open + gap;
    assert a + more == close + (gap + (sep + (gap + more)));
    assert b + (text + (a + more)) == colon + (gap + (open + (gap + (text + (a + more)))));
    assert name + gap + colon + gap + open + gap + text + close + gap + sep + gap == name + gap + b + text + a;
    assert (name + gap + b + text + a) + more == name + (gap + (b + (text + (a + more))));
  }

  /** Reading the text of one entry enters it. */
  lemma {:induction false} EntryReads(S: Schema, mi: nat, m: Msg, e: Entry, gap: seq<byte>, more: seq<byte>)
    requires mi < |S.msgs| && |m| == |S.msgs[mi].fields| && e.i < |m| && ValidEntry(S, mi, m, e)
    requires Gap(gap) && Goes(more)
    ensures ReadMsg(S, mi, m, Lex(EntryText(S, mi, e, gap) + more)) == ReadMsg(S, mi, Entered(S, mi, m, e), Lex(more))
    decreases e, 0
  {
    hide Lex, Goes, Gap, WrittenText, EntriesText, EntryText, K.IsName, Ascii, ReadMsg, ReadField, Stores, Empty;
    hide Put, Prepared, SkipComma, ValidWritten, Separator, FieldOK, Stops;
    var f := S.msgs[mi].fields[e.i];
    EntryNamed(S, mi, m, e);
    EntryFront(S, mi, m, e, gap, more);
    var p := Pos(Ident(f.name), gap + Behind(S, mi, e, gap, more));
    match e
    case Value(i, w, x, sep) =>
      var q := ValueReads(S, f, Prepared(S, f, m[i]), w, x, sep, gap, more);
      PutAdded(S, f, m[i], x);
      Round(S, mi, m, i, p, Put(f, Prepared(S, f, m[i]), x), q);
    case Nested(i, colon, body, sep) =>
      var close := gap + (sep + (gap + more));
      var inner := After(S, f.tag1, Empty(S, f.tag1), body);
      CloseEnds(close);
      EntriesRead(S, f.tag1, Empty(S, f.tag1), body, gap, Ascii("}") + close);
      R.LastIsBlank(S, f, m[i]);
      NestedReads(S, mi, f, Prepared(S, f, m[i]), inner, e, gap, more);
      PutNested(S, f, m[i], VMsg(inner));
      Round(S, mi, m, i, p, Put(f, Prepared(S, f, m[i]), VMsg(inner)), Lex(close));
      SepLex(sep, gap, more);
  }

  /** Reading the text of all entries enters them one after the other. */
  lemma {:induction false} EntriesRead(S: Schema, mi: nat, m: Msg, es: seq<Entry>, gap: seq<byte>, rest: seq<byte>)
    requires mi < |S.msgs| && |m| == |S.msgs[mi].fields| && ValidEntries(S, mi, m, es)
    requires Gap(gap) && Stops(rest)
    ensures ReadMsg(S, mi, m, Lex(EntriesText(S, mi, es, gap) + rest))
         == MsgResult(After(S, mi, m, es), Good, Lex(rest))
    decreases es
  {
    hide Lex, Gap, EntryText, ReadMsg, ValidEntry, Entered, Goes;
    if es == [] {
      assert EntriesText(S, mi, es, gap) + rest == rest;
      R.StopsHere(S, mi, m, Lex(rest));
    } else {
      var next := EntriesText(S, mi, es[1..], gap);
      EntriesFollow(S, mi, Entered(S, mi, m, es[0]), es[1..], gap, rest);
      EntryReads(S, mi, m, es[0], gap, next + rest);
      EntriesRead(S, mi, Entered(S, mi, m, es[0]), es[1..], gap, rest);
      assert EntriesText(S, mi, es, gap) + rest == EntryText(S, mi, es[0], gap) + (next + rest);
    }
  }

  /** Colon or none, braces, and the fields of the message between them. */
  lemma {:induction false} NestedReads(S: Schema, mi: nat, f: FieldDesc, items: Items, m: Msg, e: Entry,
      gap: seq<byte>, more: seq<byte>)
    requires mi < |S.msgs| && e.Nested? && e.i < |S.msgs[mi].fields| && f == S.msgs[mi].fields[e.i]
    requires f.kind == PTR && f.tag1 < |S.msgs| && Gap(gap)
    requires items.s != [] && items.s[|items.s| - 1] == VMsg(Empty(S, f.tag1))
    requires var close := Ascii("}") + (gap + (e.sep + (gap + more)));
             && ReadMsg(S, f.tag1, Empty(S, f.tag1), Lex(EntriesText(S, f.tag1, e.body, gap) + close))
                == MsgResult(m, Good, Lex(close))
    ensures ReadField(S, f, items, Lex(gap + Behind(S, mi, e, gap, more)))
         == FieldResult(Put(f, items, VMsg(m)), Good, Lex(gap + (e.sep + (gap + more))))
  {
    hide Lex, ReadMsg, Put, Empty, Gap, EntriesText, ReadField, WrittenText;
    var tail := gap + (e.sep + (gap + more));
    var body := EntriesText(S, f.tag1, e.body, gap) + (Ascii("}") + tail);
    var open := [OPEN] + (gap + body);
    CloseEnds(tail);
    K.PunctRoundTrip(OPEN, gap + body);
    GapLex(gap, body);
    GapLex(gap, open);
    R.NestedReads(S, f, items, Pos(Punct(OPEN), gap + body), m, tail);
    BracesText(S, mi, e, gap, more, body);
    if e.colon {
      GapLex(gap, [COLON] + (gap + open));
      K.PunctRoundTrip(COLON, gap + open);
      ColonSkipped(S, f, items, Pos(Punct(COLON), gap + open));
    } else {
      GapLex(gap, gap + open);
    }
  }

  lemma BracesText(S: Schema, mi: nat, e: Entry, gap: seq<byte>, more: seq<byte>, body: seq<byte>)
    requires mi < |S.msgs| && e.Nested? && e.i < |S.msgs[mi].fields|
    requires var f := S.msgs[mi].fields[e.i];
             && f.tag1 < |S.msgs|
             && body == EntriesText(S, f.tag1, e.body, gap) + (Ascii("}") + (gap + (e.sep + (gap + more))))
    ensures Behind(S, mi, e, gap, more)
         == if e.colon then [COLON] + (gap + ([OPEN] + (gap + body))) else gap + ([OPEN] + (gap + body))
  {
    hide EntriesText;
    assert Ascii(":") == [COLON] && Ascii("{") == [OPEN];
    hide Ascii;
  }

  /** A colon in front of a brace changes nothing. */
  lemma {:induction false} ColonSkipped(S: Schema, f: FieldDesc, items: Items, p: Pos)
    requires f.kind == PTR && p.tok == Punct(COLON) && Lex(p.rest).tok == Punct(OPEN)
    ensures ReadField(S, f, items, p) == ReadField(S, f, items, Lex(p.rest))
  {
    hide Lex, ReadNested;
  }

  lemma CloseEnds(tail: seq<byte>)
    ensures Stops(Ascii("}") + tail) && Lex(Ascii("}") + tail) == Pos(Punct(CLOSE), tail)
  {
    hide Lex, SkipSpaces;
    assert Ascii("}") == [CLOSE];
    K.PunctRoundTrip(CLOSE, tail);
    K.NoSpace([CLOSE] + tail);
  }

  lemma PutNested(S: Schema, f: FieldDesc, items: Items, x: Val)
    requires f.kind == PTR && (!f.list ==> items.s == [])
    ensures Put(f, Prepared(S, f, items), x) == Items(items.s + [x]) && !Repeated(f, items)
  {
    var s := items.s + [Blank(S, f)];
    assert s[..|s| - 1] == items.s;
  }

  lemma NothingMore()
    ensures Lex([]) == Pos(Eof, []) && Stops([])
  {
    R.NothingFollows();
  }

  /** Every text of the grammar is taken whole, and gives the message that its entries make. */
  lemma SourceReads(S: Schema, mi: nat, es: seq<Entry>, gap: seq<byte>)
    requires mi < |S.msgs| && ValidEntries(S, mi, Empty(S, mi), es) && Gap(gap)
    ensures ReadAll(S, mi, EntriesText(S, mi, es, gap))
         == MsgResult(After(S, mi, Empty(S, mi), es), Good, Pos(Eof, []))
  {
    hide Lex, ReadMsg, ValidEntries, EntriesText, After, Empty, Gap, Stops;
    NothingMore();
    EntriesRead(S, mi, Empty(S, mi), es, gap, []);
    assert EntriesText(S, mi, es, gap) + [] == EntriesText(S, mi, es, gap);
  }

  /** Through the builder it is the same message that ends up at the root of the pool. */
  lemma SourceParsed(S: Schema, mi: nat, es: seq<Entry>, gap: seq<byte>)
    requires SchemaOK(S) && mi < |S.msgs| && ValidEntries(S, mi, Empty(S, mi), es) && Gap(gap)
    requires |EntriesText(S, mi, es, gap)| <= F.MAX_INPUT
    ensures var c := P.ParseAll(S, mi, EntriesText(S, mi, es, gap));
            && c.st == Good && WF(c.P) && |c.P| > 0 && Head(c.P[0]).nelem == 1
            && PS.PoolMsg(S, mi, c.P, 0, 0) == After(S, mi, Empty(S, mi), es)
  {
    hide P.ParseAll, ReadAll, ValidEntries, EntriesText, After, Empty, Gap, SchemaOK, PS.PoolMsg, WF, Head;
    SourceReads(S, mi, es, gap);
    F.ParsesAnything(S, mi, EntriesText(S, mi, es, gap));
  }

  /** A number in a bool field: everything but zero is true. */
  lemma BoolFromNumber(S: Schema, mi: nat, i: nat, n: int, gap: seq<byte>)
    requires mi < |S.msgs| && Named(S.msgs[mi].fields, i) && Gap(gap)
    requires S.msgs[mi].fields[i].kind == BOOL && !S.msgs[mi].fields[i].list && S.msgs[mi].fields[i].tag1 == 0
    requires -9223372036854775808 <= n <= 18446744073709551615
    ensures ReadAll(S, mi, S.msgs[mi].fields[i].name + gap + Ascii(":") + gap + W.Decimal(n) + gap + gap)
         == MsgResult(Empty(S, mi)[i := Items([VBool(n != 0)])], Good, Pos(Eof, []))
  {
    hide ReadAll, Gap, K.IsName, W.Decimal, Ascii;
    var e := Value(i, Number(n), VBool(n != 0), []);
    assert Empty(S, mi)[i] == Items([VBool(false)]);
    var m := Entered(S, mi, Empty(S, mi), e);
    hide Empty;
    assert [e][1..] == [] && ValidEntries(S, mi, m, []);
    assert ValidEntry(S, mi, Empty(S, mi), e);
    assert m == Empty(S, mi)[i := Items([VBool(n != 0)])];
    assert After(S, mi, Empty(S, mi), [e]) == After(S, mi, m, []) == m;
    SourceReads(S, mi, [e], gap);
    var name := S.msgs[mi].fields[i].name;
    var text := name + gap + Ascii(":") + gap + W.Decimal(n) + gap;
    assert EntryText(S, mi, e, gap) == text + [] + gap == text + gap;
    assert EntriesText(S, mi, [e], gap) == text + gap by {
      assert EntriesText(S, mi, [e], gap) == EntryText(S, mi, e, gap) + [];
    }
  }

  // ---------------------------------------------------------------- what is refused

  /** A value that the field rejects ends the parser; a list has got its new element by then. */
  lemma ValueRefused(S: Schema, mi: nat, m: Msg, i: nat, w: Written, st: Status, gap: seq<byte>, more: seq<byte>)
    requires mi < |S.msgs| && |m| == |S.msgs[mi].fields| && Named(S.msgs[mi].fields, i) && Gap(gap)
    requires FieldOK(S, S.msgs[mi].fields[i]) && ValidWritten(w) && Rejects(S, S.msgs[mi].fields[i], w, st)
    requires K.NoLiteral(more)
    ensures var f := S.msgs[mi].fields[i];
            var r := ReadMsg(S, mi, m, Lex(f.name + (gap + (Ascii(":") + (gap + (WrittenText(w) + (gap + more)))))));
            r.st == st && r.p.tok == TokenOf(w) && r.m == m[i := Prepared(S, f, m[i])]
  {
    hide Lex, WrittenText, Gap, ValidWritten, K.IsName, Prepared, K.NoLiteral, Rejects;
    var f := S.msgs[mi].fields[i];
    var val := WrittenText(w) + (gap + more);
    GapLex(gap, more);
    var rest := WrittenLex(w, gap + more);
    TokenRejected(S, f, w, st);
    RejectKind(S, f, w, st);
    TokenRefused(S, mi, m, i, gap, val);
  }

  lemma RejectKind(S: Schema, f: FieldDesc, w: Written, st: Status)
    requires Rejects(S, f, w, st)
    ensures f.kind != PTR && (st == Bad || st == Aborted)
  {
  }

  /** The same for any other token in the place of a value. */
  lemma {:induction false} TokenRefused(S: Schema, mi: nat, m: Msg, i: nat, gap: seq<byte>, val: seq<byte>)
    requires mi < |S.msgs| && |m| == |S.msgs[mi].fields| && Named(S.msgs[mi].fields, i) && Gap(gap)
    requires S.msgs[mi].fields[i].kind != PTR && !ReadLiteral(S, S.msgs[mi].fields[i], Lex(val).tok).Lit?
    ensures var f := S.msgs[mi].fields[i];
            ReadMsg(S, mi, m, Lex(f.name + (gap + (Ascii(":") + (gap + val)))))
            == MsgResult(m[i := Prepared(S, f, m[i])],
                         if ReadLiteral(S, f, Lex(val).tok).NoLit? then Bad else Aborted, Lex(val))
  {
    hide Lex, Gap, K.IsName, Prepared, ReadLiteral, Goes;
    var f := S.msgs[mi].fields[i];
    NameLex(f.name, gap, Ascii(":") + (gap + val));
    GapLex(gap, Ascii(":") + (gap + val));
    GapLex(gap, val);
    assert Ascii(":") == [COLON];
    K.PunctRoundTrip(COLON, gap + val);
    FirstField(S.msgs[mi].fields, i);
  }

  /** Punctuation, floating point numbers and the end of the input are no values. */
  lemma NoValue(S: Schema, f: FieldDesc, tok: Token)
    requires FieldOK(S, f) && f.kind != PTR && (tok.Punct? || tok.Float? || tok.Eof?)
    ensures ReadLiteral(S, f, tok) == if f.kind == STR then Crash else NoLit
  {
  }

  /** Without its colon a value is refused, and without its brace a message. */
  lemma {:induction false} Missing(S: Schema, mi: nat, m: Msg, i: nat, colon: bool, gap: seq<byte>, more: seq<byte>)
    requires mi < |S.msgs| && |m| == |S.msgs[mi].fields| && Named(S.msgs[mi].fields, i) && Gap(gap)
    requires Lex(more).tok != Punct(COLON)
    requires S.msgs[mi].fields[i].kind == PTR ==>
               Lex(more).tok != Punct(OPEN) && !Repeated(S.msgs[mi].fields[i], m[i])
    requires S.msgs[mi].fields[i].kind != PTR ==> !colon
    ensures var f := S.msgs[mi].fields[i];
            ReadMsg(S, mi, m, Lex(f.name + (gap + ((if colon then Ascii(":") + gap else []) + more))))
            == MsgResult(m[i := Prepared(S, f, m[i])], Bad, Lex(more))
  {
    hide Lex, Gap, K.IsName, Prepared, Goes, ReadMsg, ReadField, Repeated, Ascii;
    var f := S.msgs[mi].fields[i];
    var tail := (if colon then Ascii(":") + gap else []) + more;
    MissingText(f.name, colon, gap, more);
    NoneThere(S, f, Prepared(S, f, m[i]), Lex(tail), Lex(more), colon);
    RoundFails(S, mi, m, i, Lex(f.name + (gap + tail)), Prepared(S, f, m[i]), Bad, Lex(more));
  }

  lemma MissingText(name: seq<byte>, colon: bool, gap: seq<byte>, more: seq<byte>)
    requires K.IsName(name) && Gap(gap)
    ensures var tail := (if colon then Ascii(":") + gap else []) + more;
            && Lex(name + (gap + tail)) == Pos(Ident(name), gap + tail) && Lex(gap + tail) == Lex(tail)
            && (if colon then Lex(tail).tok == Punct(COLON) && Lex(Lex(tail).rest) == Lex(more) else tail == more)
  {
    hide Lex, Gap, K.IsName, Goes;
    assert Ascii(":") == [COLON];
    hide Ascii;
    var tail := (if colon then [COLON] + gap else []) + more;
    NameLex(name, gap, tail);
    GapLex(gap, tail);
    GapLex(gap, more);
    if colon {
      assert tail == [COLON] + (gap + more);
      K.PunctRoundTrip(COLON, gap + more);
    }
  }

  lemma {:induction false} NoneThere(S: Schema, f: FieldDesc, items: Items, p: Pos, q: Pos, colon: bool)
    requires q.tok != Punct(COLON) && (f.kind == PTR ==> q.tok != Punct(OPEN)) && (f.kind != PTR ==> !colon)
    requires if colon then p.tok == Punct(COLON) && Lex(p.rest) == q else p == q
    ensures ReadField(S, f, items, p) == FieldResult(items, Bad, q)
  {
    hide Lex, ReadNested, ReadLiteral;
  }

  /** A round of the parser's loop that ends it. */
  lemma {:induction false} RoundFails(S: Schema, mi: nat, m: Msg, i: nat, p: Pos, items: Items, st: Status, q: Pos)
    requires mi < |S.msgs| && |m| == |S.msgs[mi].fields| && Named(S.msgs[mi].fields, i) && st != Good
    requires p.tok == Ident(S.msgs[mi].fields[i].name)
    requires S.msgs[mi].fields[i].kind == PTR ==> !Repeated(S.msgs[mi].fields[i], m[i])
    requires ReadField(S, S.msgs[mi].fields[i], Prepared(S, S.msgs[mi].fields[i], m[i]), Lex(p.rest))
          == FieldResult(items, st, q)
    ensures ReadMsg(S, mi, m, p) == MsgResult(m[i := items], st, q)
  {
    hide ReadField, Lex;
    FirstField(S.msgs[mi].fields, i);
  }

  /** A name that no field has, and the name of a single message that was given already, end the message,
      so the whole input is refused. */
  lemma StopsAtName(S: Schema, mi: nat, m: Msg, name: seq<byte>, gap: seq<byte>, more: seq<byte>)
    requires mi < |S.msgs| && |m| == |S.msgs[mi].fields| && K.IsName(name) && Gap(gap)
    requires (forall i :: 0 <= i < |m| ==> S.msgs[mi].fields[i].name != name)
             || exists i :: 0 <= i < |m| && Named(S.msgs[mi].fields, i) && S.msgs[mi].fields[i].name == name
                            && S.msgs[mi].fields[i].kind == PTR && !S.msgs[mi].fields[i].list && m[i].s != []
    ensures ReadMsg(S, mi, m, Lex(name + (gap + more))) == MsgResult(m, Good, Pos(Ident(name), gap + more))
    ensures m == Empty(S, mi) ==> ReadAll(S, mi, name + (gap + more)).st == Bad
  {
    hide Lex, Gap, K.IsName, Goes, Empty;
    NameLex(name, gap, more);
    if exists i :: 0 <= i < |m| && Named(S.msgs[mi].fields, i) && S.msgs[mi].fields[i].name == name {
      var i :| 0 <= i < |m| && Named(S.msgs[mi].fields, i) && S.msgs[mi].fields[i].name == name;
      FirstField(S.msgs[mi].fields, i);
    }
  }

  /** A message in braces that is not closed is refused, and so is an input that goes on behind its last
      field. */
  lemma {:induction false} NotClosed(S: Schema, f: FieldDesc, items: Items, es: seq<Entry>, gap: seq<byte>, q: Pos,
      rest: seq<byte>)
    requires f.kind == PTR && f.tag1 < |S.msgs| && Gap(gap) && q.tok == Punct(OPEN)
    requires items.s != [] && items.s[|items.s| - 1] == VMsg(Empty(S, f.tag1))
    requires ValidEntries(S, f.tag1, Empty(S, f.tag1), es)
    requires q.rest == EntriesText(S, f.tag1, es, gap) + rest && Stops(rest)
    ensures var m := After(S, f.tag1, Empty(S, f.tag1), es);
            && (Lex(rest).tok != Punct(CLOSE) ==>
                  ReadField(S, f, items, q) == FieldResult(Put(f, items, VMsg(m)), Bad, Lex(rest)))
            && (Lex(rest).tok != Eof ==>
                  ReadAll(S, f.tag1, q.rest) == MsgResult(m, Bad, Lex(rest)))
  {
    hide Lex, Gap, Empty, ReadMsg, ReadField, Put, ValidEntries, EntriesText, After, Stops;
    EntriesRead(S, f.tag1, Empty(S, f.tag1), es, gap, rest);
    if Lex(rest).tok != Punct(CLOSE) {
      LeftOpen(S, f, items, q, After(S, f.tag1, Empty(S, f.tag1), es), Lex(rest));
    }
  }

  lemma {:induction false} LeftOpen(S: Schema, f: FieldDesc, items: Items, q: Pos, m: Msg, p: Pos)
    requires f.kind == PTR && f.tag1 < |S.msgs| && q.tok == Punct(OPEN) && p.tok != Punct(CLOSE)
    requires items.s != [] && items.s[|items.s| - 1] == VMsg(Empty(S, f.tag1))
    requires ReadMsg(S, f.tag1, Empty(S, f.tag1), Lex(q.rest)) == MsgResult(m, Good, p)
    ensures ReadField(S, f, items, q) == FieldResult(Put(f, items, VMsg(m)), Bad, p)
  {
    hide Lex, Empty, ReadMsg, Put;
  }
}
