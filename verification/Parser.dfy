/** The parser of the text format as a program (lib/parse.c): it drives the lexer and writes into the
    builder, and does what the parser function on pools says. */
module Parser {
  import opened Bytes
  import opened Wire
  import opened Pool
  import opened Decode
  import opened Cells
  import opened Forest
  import opened Schemas
  import opened Views
  import L = Lexer
  import opened ValueParser
  import opened PoolParser
  import opened ParseSim
  import opened ParseSteps
  import opened ParseItems
  import opened ParseAgree
  import opened Builder
  import opened Scanner
  import Buffer
  import Sim = Simulation
  import R = Reflection
  import F = TextFormat
  import Z = ParseSize

  class Parser {
    const S: Schema
    const l: Scanner
    const b: Builder
    var token: L.Token

    ghost predicate Valid()
      reads this, l, b, b.Repr
    {
      b.Valid() && l.Valid() && l !in b.Repr && this !in b.Repr
    }

    /** The current token and the input behind it. */
    function Here(): L.Pos
      requires l.Valid()
      reads this, l
    {
      L.Pos(token, l.Rest())
    }

    constructor (S: Schema, l: Scanner, b: Builder)
      requires b.Valid() && l.Valid() && l !in b.Repr
      ensures Valid() && this.S == S && this.l == l && this.b == b && token == L.Eof
    {
      this.S, this.l, this.b := S, l, b;
      token := L.Eof;
    }

    /** Reads the next token. */
    method Advance()
      requires Valid()
      modifies this, l
      ensures Valid() && b.objs == old(b.objs) && b.Repr == old(b.Repr)
      ensures Here() == Next(old(Here()))
    {
      hide L.Lex;
      token := l.Lex();
    }

    /** Parses the whole input into the root, which is object 0; nothing may follow the last field. */
    method Run(mi: nat) returns (st: Status)
      requires Valid() && mi < |S.msgs| && b.objs == [] + [NewObj(RootShape(S, mi))]
      requires Open(S, mi, b.objs, b.objs, 0, 0, RootShape(S, mi)) && Room(b.objs, Left(L.Lex(l.Rest())))
      modifies this, l, b.Repr
      ensures Valid() && fresh(b.Repr - old(b.Repr))
      ensures var c := PoolParser.ParseMsg(S, mi, old(b.objs), 0, RootShape(S, mi), L.Lex(old(l.Rest())));
              b.objs == c.P && st == if c.st == Good && c.p.tok != L.Eof then Bad else c.st
    {
      hide Open, Room, PoolParser.ParseMsg, L.Lex, NewObj, RootShape;
      Advance();
      st := ParseMsg(mi, 0, RootShape(S, mi), b.objs, 0);
      if st == Good && token != L.Eof {
        st := Bad;
      }
    }

    // -------------------------------------------------------------- places and values

    /** Creates the object behind a list or message field, or appends an element to it. */
    method InitPtr(f: FieldDesc, k: nat, r: Obj, ghost e: nat, ghost n: nat) returns (ref: Ref)
      requires Valid() && SchemaOK(S) && FieldOK(S, f) && Grows(f) && WF(b.objs) && Room(b.objs, n)
      requires k < |b.objs| && e < Head(b.objs[k]).nelem && f.tag0 < Head(b.objs[k]).psize
      requires r == ElemHandle(Head(b.objs[k]), e)
      requires PoolParser.InitPtr(S, f, b.objs, k, r).Ready?
      modifies this, b.Repr
      ensures Valid() && fresh(b.Repr - old(b.Repr)) && token == old(token)
      ensures PoolParser.InitPtr(S, f, old(b.objs), k, r) == Ready(b.objs, ref)
    {
      hide WF, WFObj, Head, Slot, PtrPos, RelPtr, Readable, ItemShape, NewObj, ValidShape, Grown, ElemHandle, Splice;
      hide GetElem, ObjInit, ObjSize, HasShape, RefOK, SchemaOK, FieldOK, LE;
      ghost var P := b.objs;
      SlotRead(P, k, e, f.tag0);
      ObjAt(P, k);
      SlotInside(P[k], e, f.tag0);
      SlotOfHandle(Head(P[k]), e, f.tag0);
      var id, h := b.GetPtr(k, r, f.tag0, e);
      if id != 0 {
        ObjAt(P, id);
        HeadIsInit(P[id]);
        SizeOfWF(P[id]);
        RoomSelf(P, id, n);
        ShapeGrows(P[id], h.nelem + 1);
        PayloadMono(h, h.nelem + 1);
        b.Resize(id, h.nelem + 1);
        ref := Ref(id, GetElem(h.(nelem := h.nelem + 1), h.nelem), if f.kind == BOOL then h.nelem % 8 else 0);
      } else {
        FirstShape(S, f);
        var o := Obj(8, 1, ItemShape(S, f).0, ItemShape(S, f).1);
        SmallObject(o);
        var t := b.Create(o);
        b.Link(k, r.base + PtrOffs(r, f.tag0), t);
        ref := Ref(t, o, 0);
      }
    }

    /** Stores a value at a reference. */
    method Store(f: FieldDesc, ref: Ref, v: Val)
      requires Valid() && PutLiteral(f, b.objs, ref, v).Stored?
      modifies this, b.Repr
      ensures Valid() && fresh(b.Repr - old(b.Repr)) && token == old(token)
      ensures PutLiteral(f, old(b.objs), ref, v) == Stored(b.objs)
    {
      hide Readable, NewObj, Splice, Sim.StrShape, ValidShape, LE, Wire.PutInt, Wire.PutBit;
      match v
      case VBool(x) => b.WriteBit(ref.k, ref.r, ref.tag, x);
      case VInt(n) => b.WriteInt(ref.k, ref.r, ref.tag, ScalarWidth(f), n);
      case VStr(s) =>
        Sim.StrFits(s);
        SmallString(s);
        ghost var P := b.objs;
        var t := b.Create(Sim.StrShape(s));
        b.Fill(t, s);
        b.Link(ref.k, ref.r.base + PtrOffs(ref.r, ref.tag), t);
        assert Write(P + [NewObj(Sim.StrShape(s))], t, 8, s) == P + [Splice(NewObj(Sim.StrShape(s)), 8, s)];
    }

    // -------------------------------------------------------------- messages

    /** Parses fields into the element that (k, r) designates. */
    method ParseMsg(mi: nat, k: nat, r: Obj, ghost P0: Pool, ghost e: nat) returns (st: Status)
      requires Valid() && Open(S, mi, P0, b.objs, k, e, r) && Room(b.objs, Left(Here()))
      modifies this, l, b.Repr
      ensures Valid() && fresh(b.Repr - old(b.Repr))
      ensures ParseResult(b.objs, st, Here()) == PoolParser.ParseMsg(S, mi, old(b.objs), k, r, old(Here()))
      decreases Left(Here()), 5
    {
      hide Open, Room, PoolParser.ParseMsg, L.Lex;
      OpenFacts(S, mi, P0, b.objs, k, e, r);
      st := Good;
      var more := true;
      while more && token.Ident?
        invariant Valid() && fresh(b.Repr - old(b.Repr))
        invariant more ==> Open(S, mi, P0, b.objs, k, e, r) && Room(b.objs, Left(Here()))
        invariant more ==> Left(Here()) <= old(Left(Here())) && st == Good
        invariant (if more then PoolParser.ParseMsg(S, mi, b.objs, k, r, Here()) else ParseResult(b.objs, st, Here()))
               == PoolParser.ParseMsg(S, mi, old(b.objs), k, r, old(Here()))
        decreases more, Left(Here())
      {
        st, more := ParseRound(mi, k, r, P0, e);
        if more {
          st := Good;
        }
      }
      if more {
        MsgStep(S, mi, b.objs, k, r, Here());
      }
    }

    /** One round of the loop over fields, and whether to go on. */
    method ParseRound(mi: nat, k: nat, r: Obj, ghost P0: Pool, ghost e: nat) returns (st: Status, more: bool)
      requires Valid() && Open(S, mi, P0, b.objs, k, e, r) && Room(b.objs, Left(Here())) && token.Ident?
      modifies this, l, b.Repr
      ensures Valid() && fresh(b.Repr - old(b.Repr))
      ensures more ==> Open(S, mi, P0, b.objs, k, e, r) && Room(b.objs, Left(Here()))
      ensures more ==> Left(Here()) < old(Left(Here()))
      ensures (if more then PoolParser.ParseMsg(S, mi, b.objs, k, r, Here()) else ParseResult(b.objs, st, Here()))
           == PoolParser.ParseMsg(S, mi, old(b.objs), k, r, old(Here()))
      decreases Left(Here()), 4
    {
      hide Open, Room, PoolParser.ParseMsg, PoolParser.ParseField, ReadField, L.Lex, WF, Tidy, Frame, PoolMsg, Repeated;
      hide RelPtr, Readable, HasPtr, FindField;
      ghost var P, p := b.objs, Here();
      OpenFacts(S, mi, P0, P, k, e, r);
      MsgStep(S, mi, P, k, r, p);
      st, more := Good, false;
      var i := R.FindField(S.msgs[mi].fields, token.s);
      if i.None? {
        return;
      }
      var f := S.msgs[mi].fields[i.value];
      SlotsReadable(S, mi, P0, P, k, e, r, i.value);
      RepeatedIff(S, mi, P0, P, k, e, r, i.value);
      RepeatedKind(f, PoolMsg(S, mi, P, k, e)[i.value]);
      if f.kind == PTR && !f.list {
        SlotRead(P, k, e, f.tag0);
        var id, _ := b.GetPtr(k, r, f.tag0, e);
        if id != 0 {
          return;
        }
      }
      st := ParseField(mi, i.value, k, r, P0, e);
      RoundFacts(S, mi, P0, P, k, e, r, i.value, p);
      if st == Good {
        more := true;
        SkipSeparator();
      }
    }

    /** A separator behind a field is optional. */
    method SkipSeparator()
      requires Valid()
      modifies this, l
      ensures Valid() && b.objs == old(b.objs) && b.Repr == old(b.Repr)
      ensures Here() == SkipComma(old(Here()))
    {
      hide L.Lex;
      if token == L.Punct(COMMA) || token == L.Punct(SEMICOLON) {
        Advance();
      }
    }

    /** One field: the place of its value is prepared before what follows the name is read. */
    method ParseField(mi: nat, i: nat, k: nat, r: Obj, ghost P0: Pool, ghost e: nat) returns (st: Status)
      requires Valid() && Open(S, mi, P0, b.objs, k, e, r) && Room(b.objs, Left(Here())) && token.Ident?
      requires i < |S.msgs[mi].fields|
      requires !Repeated(S.msgs[mi].fields[i], PoolMsg(S, mi, b.objs, k, e)[i])
      modifies this, l, b.Repr
      ensures Valid() && fresh(b.Repr - old(b.Repr))
      ensures ParseResult(b.objs, st, Here())
           == PoolParser.ParseField(S, S.msgs[mi].fields[i], old(b.objs), k, r, old(Here()))
      decreases Left(Here()), 3
    {
      hide Open, Room, PoolParser.InitPtr, PoolParser.ParseValue, L.Lex, WF, Tidy, Frame, ElemHandle, Placed, Head;
      hide PoolMsg;
      hide SchemaOK, FieldOK;
      OpenFacts(S, mi, P0, b.objs, k, e, r);
      FieldFacts(S, mi, i);
      var f := S.msgs[mi].fields[i];
      ghost var Q, q, n := PrepareStep(S, mi, P0, b.objs, k, e, r, i, Here());
      var ref := Ref(k, r, f.tag0);
      if Grows(f) {
        GrowsIsPtr(f);
        PtrTag(S.msgs[mi], f);
        ref := InitPtr(f, k, r, e, Left(Here()));
      }
      Advance();
      st := ParseValue(mi, i, k, r, ref, P0, e, n);
    }

    /** What follows the name of a field. */
    method ParseValue(mi: nat, i: nat, k: nat, r: Obj, ref: Ref, ghost P0: Pool, ghost e: nat, ghost n: nat)
      returns (st: Status)
      requires Valid() && Open(S, mi, P0, b.objs, k, e, r) && Room(b.objs, Left(Here())) && i < |S.msgs[mi].fields|
      requires Placed(S, S.msgs[mi].fields[i], b.objs, k, e, r, ref, n)
      modifies this, l, b.Repr
      ensures Valid() && fresh(b.Repr - old(b.Repr))
      ensures ParseResult(b.objs, st, Here())
           == PoolParser.ParseValue(S, S.msgs[mi].fields[i], old(b.objs), ref, old(Here()))
      decreases Left(Here()), 2
    {
      hide Open, Room, PoolParser.ParseMsg, ParseLiteral, L.Lex, WF, Tidy, Frame, Placed, Head, SchemaOK, FieldOK;
      hide Child, Untouched, WFObj;
      OpenFacts(S, mi, P0, b.objs, k, e, r);
      var f := S.msgs[mi].fields[i];
      if f.kind == PTR {
        FieldFacts(S, mi, i);
        PtrType(S, f);
        ghost var have := Left(Here());
        if token == L.Punct(L.COLON) {
          Advance();
        }
        if token != L.Punct(L.OPEN) {
          return Bad;
        }
        NestedReady(S, mi, P0, b.objs, k, e, r, i, ref, n);
        Advance();
        RoomLess(b.objs, have, Left(Here()));
        st := ParseMsg(f.tag1, ref.k, ref.r, b.objs, n);
        if st != Good {
          return;
        }
        if token != L.Punct(L.CLOSE) {
          return Bad;
        }
        Advance();
      } else {
        if token != L.Punct(L.COLON) {
          return Bad;
        }
        ghost var have := Left(Here());
        TokenShort(l.Rest());
        Advance();
        st := ParseScalar(mi, i, k, r, ref, P0, e, n, have);
      }
    }

    /** A value that is one token. */
    method ParseScalar(mi: nat, i: nat, k: nat, r: Obj, ref: Ref, ghost P0: Pool, ghost e: nat, ghost n: nat,
        ghost have: nat)
      returns (st: Status)
      requires Valid() && Open(S, mi, P0, b.objs, k, e, r) && i < |S.msgs[mi].fields|
      requires Placed(S, S.msgs[mi].fields[i], b.objs, k, e, r, ref, n) && S.msgs[mi].fields[i].kind != PTR
      requires Room(b.objs, have) && Left(Here()) < have
      requires token.Str? || token.Ident? ==> |token.s| + |l.Rest()| < have
      modifies this, l, b.Repr
      ensures Valid() && fresh(b.Repr - old(b.Repr))
      ensures ParseResult(b.objs, st, Here())
           == ParseLiteral(S, S.msgs[mi].fields[i], old(b.objs), ref, old(Here()))
    {
      hide Open, Room, L.Lex, WF, Tidy, Frame, Placed, Head, SchemaOK, ReadLiteral, PutLiteral, PoolMsg, Narrow;
      OpenFacts(S, mi, P0, b.objs, k, e, r);
      var f := S.msgs[mi].fields[i];
      var lit := ReadLiteral(S, f, token);
      if lit.NoLit? {
        return Bad;
      }
      if lit.Crash? {
        return Aborted;
      }
      LiteralSuits(S, f, token);
      ghost var Q := PutStep(S, mi, P0, b.objs, k, e, r, i, ref, n, lit.v, have, Left(Next(Here())));
      Store(f, ref, lit.v);
      Advance();
      st := Good;
    }
  }

  /** After a field the message is open for the next. */
  lemma RoundFacts(S: Schema, mi: nat, P0: Pool, P: Pool, k: nat, e: nat, r: Obj, i: nat, p: L.Pos)
    requires Open(S, mi, P0, P, k, e, r) && Room(P, Left(p)) && p.tok.Ident? && i < |S.msgs[mi].fields|
    requires !Repeated(S.msgs[mi].fields[i], PoolMsg(S, mi, P, k, e)[i])
    ensures var c := PoolParser.ParseField(S, S.msgs[mi].fields[i], P, k, r, p);
            && Open(S, mi, P0, c.P, k, e, r) && Room(c.P, Left(SkipComma(c.p)))
            && (c.st == Good ==> Left(SkipComma(c.p)) < Left(p))
  {
    hide Open, Room, PoolParser.ParseField, ReadField, PoolMsg, SkipComma, Prepared;
    OpenFacts(S, mi, P0, P, k, e, r);
    FieldAgrees(S, mi, P0, P, k, e, r, i, p);
    var c := PoolParser.ParseField(S, S.msgs[mi].fields[i], P, k, r, p);
    RoomLess(c.P, Left(c.p), Left(SkipComma(c.p)));
  }

  lemma RepeatedKind(f: FieldDesc, items: Items)
    ensures Repeated(f, items) ==> f.kind == PTR && !f.list
  {
  }

  /** The place of a message field is open for its fields. */
  lemma NestedReady(S: Schema, mi: nat, P0: Pool, Q: Pool, k: nat, e: nat, r: Obj, i: nat, ref: Ref, n: nat)
    requires Open(S, mi, P0, Q, k, e, r) && i < |S.msgs[mi].fields| && S.msgs[mi].fields[i].kind == PTR
    requires Placed(S, S.msgs[mi].fields[i], Q, k, e, r, ref, n)
    ensures Open(S, S.msgs[mi].fields[i].tag1, Q, Q, ref.k, n, ref.r)
  {
    hide Open, WF, Tidy, Placed, Child, Untouched, WFObj, SchemaOK, FieldOK;
    OpenFacts(S, mi, P0, Q, k, e, r);
    FieldFacts(S, mi, i);
    PlacedChild(S, S.msgs[mi].fields[i], Q, k, e, r, ref, n);
    NestedOpens(S, S.msgs[mi].fields[i], Q, k, e, ref, n);
  }

  lemma PtrType(S: Schema, f: FieldDesc)
    requires FieldOK(S, f) && f.kind == PTR
    ensures f.tag1 < |S.msgs|
  {
  }

  lemma SlotsReadable(S: Schema, mi: nat, P0: Pool, P: Pool, k: nat, e: nat, r: Obj, i: nat)
    requires Open(S, mi, P0, P, k, e, r) && i < |S.msgs[mi].fields|
    ensures k < |P| && Readable(P[k], r)
    ensures forall j: nat :: HasPtr(P, k, r, j) <==> RelPtr(P[k], r, j) != 0
  {
    hide Open, WF, Head, WFObj, Readable, ElemHandle, RelPtr;
    OpenFacts(S, mi, P0, P, k, e, r);
    FieldFacts(S, mi, i);
    ObjAt(P, k);
    ReadableElem(P[k], e);
  }

  /** One round of the parser function. */
  lemma {:induction false} MsgStep(S: Schema, mi: nat, P: Pool, k: nat, r: Obj, p: L.Pos)
    requires mi < |S.msgs|
    ensures PoolParser.ParseMsg(S, mi, P, k, r, p)
         == if !p.tok.Ident? then ParseResult(P, Good, p)
            else
              var fields := S.msgs[mi].fields;
              var i := FindField(fields, p.tok.s);
              if i.None? then ParseResult(P, Good, p)
              else
                var f := fields[i.value];
                if f.kind == PTR && !f.list && HasPtr(P, k, r, f.tag0) then ParseResult(P, Good, p)
                else
                  var v := PoolParser.ParseField(S, f, P, k, r, p);
                  if v.st == Good then PoolParser.ParseMsg(S, mi, v.P, k, r, SkipComma(v.p)) else v
  {
    hide PoolParser.ParseField, HasPtr, FindField;
  }

  lemma SmallObject(o: Obj)
    requires ValidShape(o)
    ensures |NewObj(o)| <= Buffer.MAX_LEN
  {
    hide ObjSize, NewObj;
    SizeBound(o);
    Buffer.NewObjSize(o);
  }

  /** Parses a whole input into a builder of its own: the pool is the one that the parser function computes,
      and if the input is short for the schema, the builder can serialize it. */
  method Parse(S: Schema, mi: nat, input: seq<byte>) returns (st: Status, b: Builder)
    requires SchemaOK(S) && mi < |S.msgs| && |input| <= F.MAX_INPUT
    ensures b.Valid() && fresh(b.Repr) && WF(b.objs)
    ensures var c := ParseAll(S, mi, input); b.objs == c.P && st == c.st && st != Broken
    ensures Z.Short(S, input) ==> Fits(b.objs)
  {
    hide Open, Room, PoolParser.ParseMsg, L.Lex, WF, NewObj, SchemaOK, ValidShape, RootShape, ParseAll;
    hide Z.Short;
    Root(S, mi, input);
    if Z.Short(S, input) {
      Z.ParsedFits(S, mi, input);
    }
    var p := Begin(S, RootShape(S, mi), input);
    st := p.Run(mi);
    b := p.b;
  }

  /** A parser at the start of its input, with a root of the given shape. */
  method Begin(S: Schema, o: Obj, input: seq<byte>) returns (p: Parser)
    requires ValidShape(o) && |NewObj(o)| <= Buffer.MAX_LEN
    ensures p.Valid() && fresh(p) && fresh(p.l) && fresh(p.b.Repr)
    ensures p.S == S && p.l.Rest() == input && p.b.objs == [] + [NewObj(o)]
  {
    hide NewObj, ValidShape;
    var b := new Builder();
    var root := b.Create(o);
    var l := new Scanner(input);
    p := new Parser(S, l, b);
  }

  /** What the parser function says about the root and the outcome. */
  lemma Root(S: Schema, mi: nat, input: seq<byte>)
    requires SchemaOK(S) && mi < |S.msgs| && |input| <= F.MAX_INPUT
    ensures var o, p := RootShape(S, mi), L.Lex(input);
            var P := [] + [NewObj(o)];
            && ValidShape(o) && |NewObj(o)| <= Buffer.MAX_LEN
            && Open(S, mi, P, P, 0, 0, o) && Room(P, Left(p))
            && var c := PoolParser.ParseMsg(S, mi, P, 0, o, p);
               ParseAll(S, mi, input) == if c.st == Good && c.p.tok != L.Eof then c.(st := Bad) else c
    ensures WF(ParseAll(S, mi, input).P) && ParseAll(S, mi, input).st != Broken
  {
    hide Open, Room, PoolParser.ParseMsg, L.Lex, WF, Tidy, NewObj, SchemaOK, ValidShape, PoolMsg, ReadAll, RootShape;
    F.RootOpens(S, mi, |input|);
    SmallObject(RootShape(S, mi));
    RoomLess([] + [NewObj(RootShape(S, mi))], |input|, Left(L.Lex(input)));
    F.ParsesAnything(S, mi, input);
  }
}
