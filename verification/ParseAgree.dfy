/** The parser on the pool agrees with the parser on values, for every input. */
module ParseAgree {
  import opened Bytes
  import opened Wire
  import opened Pool
  import opened Decode
  import opened Cells
  import opened Forest
  import opened Schemas
  import opened Views
  import L = Lexer
  import opened ValueParser
  import opened PoolParser
  import opened ParseSim
  import opened ParseSteps
  import opened ParseItems
  import Sim = Simulation
  import A = Access
  import T = Tokens

  // ---------------------------------------------------------------- storing into the last item

  /** What storing a literal in the last item does. */
  ghost predicate ItemPut(S: Schema, f: FieldDesc, Q: Pool, R: Pool, t: nat, n: nat, v: Val)
    requires WF(Q) && WF(R)
  {
    && Tidy(R) && Frame(Q, R, t, n) && |R| <= |Q| + 1
    && t < |R| && n < Head(R[t]).nelem
    && (if f.kind == BOOL && n == 0 then ItemAt(S, f, R, t, n) == ItemAt(S, f, Q, t, n)
        else ItemAt(S, f, R, t, n) == Narrow(f, v))
    && (|R| > |Q| ==> v.VStr? && Head(R[|Q|]).nelem == |v.s| + 1)
  }

  lemma PutFirstBool(S: Schema, f: FieldDesc, Q: Pool, k: nat, e: nat, ref: Ref, v: Val)
    requires FieldOK(S, f) && f.kind == BOOL && v.VBool? && WF(Q) && Tidy(Q) && Child(S, f, Q, k, e, ref, 0)
    ensures PutLiteral(f, Q, ref, v) == Stored(Q) && ItemPut(S, f, Q, Q, ref.k, 0, v)
  {
    hide WF, WFObj, Slot, Head, PoolScalar, Tidy, PoolBit, ItemAt;
    var b := Q[ref.k];
    ObjAt(Q, ref.k);
    assert ref.r == Head(b) && ref.r.ssize == 0 && ref.r.psize == 0;
    assert Readable(b, ref.r);
    Sim.PutBitBeyond(b, ref.r, ref.tag, v.b);
    assert Q[ref.k := Q[ref.k]] == Q;
    FrameRefl(Q, ref.k, 0);
  }

  lemma PutBool(S: Schema, f: FieldDesc, Q: Pool, k: nat, e: nat, ref: Ref, n: nat, v: Val) returns (R: Pool)
    requires FieldOK(S, f) && f.kind == BOOL && v.VBool? && WF(Q) && Tidy(Q) && Child(S, f, Q, k, e, ref, n) && n > 0
    ensures PutLiteral(f, Q, ref, v) == Stored(R) && WF(R) && ItemPut(S, f, Q, R, ref.k, n, v)
  {
    hide WF, WFObj, Slot, Head, PoolScalar, Tidy, PoolBit, ItemAt, SpareBitsZero, PutBit, GetElem, Readable, SameElem;
    var t := ref.k;
    ObjAt(Q, t);
    BitCells(Q, t, n, v.b);
    R := Q[t := PutBit(Q[t], ref.r, ref.tag, v.b)];
    ObjAt(R, t);
    SpareAt(Q, t);
    NoPointers(Q[t], R[t]);
    TidyReplace(Q, t, R[t]);
    BoolItem(S, f, R, t, n);
  }

  /** Objects without pointers and scalars. */
  lemma NoPointers(b: seq<byte>, c: seq<byte>)
    requires WFObj(b) && WFObj(c) && Head(c) == Head(b) && Head(b).psize == 0 && Head(b).ssize == 0
    ensures forall d :: 0 <= d < Head(b).nelem ==> SameElem(b, c, d)
  {
    hide WFObj, Slot, Head;
  }

  lemma PutNumber(S: Schema, f: FieldDesc, Q: Pool, k: nat, e: nat, ref: Ref, n: nat, v: Val) returns (R: Pool)
    requires FieldOK(S, f) && f.kind in {ENUM, INT, UINT} && v.VInt? && WF(Q) && Tidy(Q) && Child(S, f, Q, k, e, ref, n)
    ensures PutLiteral(f, Q, ref, v) == Stored(R) && WF(R) && ItemPut(S, f, Q, R, ref.k, n, v)
  {
    hide WF, WFObj, Slot, Head, PoolScalar, Tidy, PoolBit, ItemAt, Child, PutLiteral, FieldOK, Frame, ScalarsOnly;
    hide Narrow, ScalarVal, ElemHandle, WriteAlone;
    NumberRef(S, f, Q, k, e, ref, n);
    var t := ref.k;
    R := WriteNumber(f, Q, t, n, ref.r, v);
    ScalarFrame(Q, R, t, n);
    FrameInside(Q, R, t, n);
    ScalarItem(S, f, R, t, n);
    StoredScalar(S, f, PoolScalar(Q[t], n), 0, v);
  }

  lemma NumberRef(S: Schema, f: FieldDesc, Q: Pool, k: nat, e: nat, ref: Ref, n: nat)
    requires FieldOK(S, f) && f.kind in {ENUM, INT, UINT} && WF(Q) && Child(S, f, Q, k, e, ref, n)
    ensures ref.k < |Q| && n < Head(Q[ref.k]).nelem && WFObj(Q[ref.k])
    ensures Head(Q[ref.k]).ssize == ScalarWidth(f) > 0 && Head(Q[ref.k]).psize == 0
    ensures ElemSize(Head(Q[ref.k])) != 0 && ref.r == ElemHandle(Head(Q[ref.k]), n) && ref.tag == 0
  {
    hide WF, WFObj, Slot, Head;
    ObjAt(Q, ref.k);
  }

  /** Storing a number in an object of numbers. */
  lemma WriteNumber(f: FieldDesc, Q: Pool, t: nat, n: nat, r: Obj, v: Val) returns (R: Pool)
    requires f.kind in {ENUM, INT, UINT} && v.VInt? && WF(Q) && Tidy(Q)
    requires t < |Q| && n < Head(Q[t]).nelem && WFObj(Q[t])
    requires Head(Q[t]).ssize == ScalarWidth(f) > 0 && Head(Q[t]).psize == 0
    requires ElemSize(Head(Q[t])) != 0 && r == ElemHandle(Head(Q[t]), n)
    ensures PutLiteral(f, Q, Ref(t, r, 0), v) == Stored(R) && WF(R) && Tidy(R) && |R| == |Q| && ScalarsOnly(Q, R, t, n)
    ensures WFObj(R[t]) && PoolScalar(R[t], n) == WriteAlone(f, PoolScalar(Q[t], n), 0, v)
    ensures FitsIn(f, PoolScalar(Q[t], n), 0)
  {
    hide WF, WFObj, Slot, Head, PoolScalar, Tidy, SpareBitsZero, PutInt, Readable, ElemHandle;
    var w := ScalarWidth(f);
    FieldCells(Q, t, n, w, 0, v.v);
    R := Q[t := A.WriteField(Q[t], r, w, 0, v.v)];
    ObjAt(R, t);
    NotBits(R[t]);
    TidyReplace(Q, t, R[t]);
  }

  lemma PutStringItem(S: Schema, f: FieldDesc, Q: Pool, k: nat, e: nat, ref: Ref, n: nat, v: Val) returns (R: Pool)
    requires FieldOK(S, f) && f.kind == STR && v.VStr? && WF(Q) && Tidy(Q) && Child(S, f, Q, k, e, ref, n)
    requires |v.s| + 1 < U32 && |Q| + 1 < 0x8000_0000
    ensures PutLiteral(f, Q, ref, v) == Stored(R) && WF(R) && ItemPut(S, f, Q, R, ref.k, n, v)
  {
    hide WF, WFObj, Slot, Head, PoolScalar, Tidy, PoolBit, ItemAt, SameElem, Readable, PutStr, StrObj, LinkedNew;
    hide ElemHandle, Frame;
    var t := ref.k;
    R := PutString(Q, t, n, ref.r, 0, v.s);
    LinkedFrame(Q, R, t, n, 0, StrObj(v.s));
    FrameInside(Q, R, t, n);
    StrObjOK(v.s);
    StrItem(S, f, R, t, n);
  }

  /** Storing a literal in the last item of a list. */
  lemma PutItem(S: Schema, f: FieldDesc, Q: Pool, k: nat, e: nat, ref: Ref, n: nat, v: Val) returns (R: Pool)
    requires FieldOK(S, f) && Suits(f, v) && WF(Q) && Tidy(Q) && Child(S, f, Q, k, e, ref, n)
    requires v.VStr? ==> |v.s| + 1 < U32 && |Q| + 1 < 0x8000_0000
    ensures PutLiteral(f, Q, ref, v) == Stored(R) && WF(R) && ItemPut(S, f, Q, R, ref.k, n, v)
  {
    hide WF, Tidy, Child, ItemPut, PutLiteral;
    if f.kind == BOOL && n == 0 {
      PutFirstBool(S, f, Q, k, e, ref, v);
      R := Q;
    } else if f.kind == BOOL {
      R := PutBool(S, f, Q, k, e, ref, n, v);
    } else if f.kind == STR {
      R := PutStringItem(S, f, Q, k, e, ref, n, v);
    } else {
      R := PutNumber(S, f, Q, k, e, ref, n, v);
    }
  }

  // ---------------------------------------------------------------- one value

  /** The place where a field's value goes. */
  ghost predicate Placed(S: Schema, f: FieldDesc, Q: Pool, k: nat, e: nat, r: Obj, ref: Ref, n: nat)
    requires WF(Q)
  {
    && (Grows(f) ==> Child(S, f, Q, k, e, ref, n) && WFObj(Q[ref.k]) && Untouched(Q[ref.k], n))
    && (!Grows(f) ==> ref == Ref(k, r, f.tag0))
  }

  lemma PutAsLast(f: FieldDesc, items: Items, n: nat, x: Val, y: Val)
    requires |items.s| == n + 1
    requires x == if f.kind == BOOL && n == 0 && f.list then items.s[n] else y
    ensures Items(items.s[..n] + [x]) == Put(f, items, y)
  {
    assert items.s == items.s[..n] + [items.s[n]];
  }

  lemma PutOwn(f: FieldDesc, items: Items, y: Val)
    requires |items.s| == 1 && !f.list
    ensures Put(f, items, y) == Items([y])
  {
  }

  /** Storing a literal, in a field of its own or in the last item of a list. */
  lemma PutStep(S: Schema, mi: nat, P0: Pool, Q: Pool, k: nat, e: nat, r: Obj, i: nat, ref: Ref, n: nat, v: Val,
      have: nat, left: nat)
    returns (R: Pool)
    requires Open(S, mi, P0, Q, k, e, r) && i < |S.msgs[mi].fields|
    requires Placed(S, S.msgs[mi].fields[i], Q, k, e, r, ref, n) && Suits(S.msgs[mi].fields[i], v)
    requires Room(Q, have) && left < have && (v.VStr? ==> |v.s| + 1 + left <= have)
    ensures PutLiteral(S.msgs[mi].fields[i], Q, ref, v) == Stored(R)
    ensures Open(S, mi, P0, R, k, e, r) && Room(R, left)
    ensures PoolMsg(S, mi, R, k, e)
         == var f, m := S.msgs[mi].fields[i], PoolMsg(S, mi, Q, k, e);
            m[i := Put(f, m[i], Narrow(f, v))]
  {
    hide WF, Open, Child, PutLiteral, PoolField, Narrow, Head, Slot, Tidy, Untouched, WFObj, Frame, Room, Suits;
    OpenFacts(S, mi, P0, Q, k, e, r);
    var f := S.msgs[mi].fields[i];
    FieldFacts(S, mi, i);
    if Grows(f) {
      LiteralList(f, v);
      R := PutListed(S, mi, P0, Q, k, e, r, i, ref, n, v, have, left);
    } else {
      OwnItem(S, f, Q, k, e);
      PutOwn(f, PoolField(S, f, Q, k, e), Narrow(f, v));
      if f.kind == STR {
        StringLiteral(f, v);
        R := StringStep(S, mi, P0, Q, k, e, r, i, v.s, have, left);
      } else {
        R := ScalarStep(S, mi, P0, Q, k, e, r, i, v);
        assert Room(R, have);
        RoomLess(R, have, left);
      }
    }
  }

  lemma OpenFacts(S: Schema, mi: nat, P0: Pool, P: Pool, k: nat, e: nat, r: Obj)
    requires Open(S, mi, P0, P, k, e, r)
    ensures SchemaOK(S) && mi < |S.msgs| && WF(P) && Tidy(P) && k < |P| && e < Head(P[k]).nelem
    ensures Head(P[k]).ssize == S.msgs[mi].ssize && Head(P[k]).psize == S.msgs[mi].psize
    ensures S.msgs[mi].ssize + 4 * S.msgs[mi].psize != 0 ==> r == ElemHandle(Head(P[k]), e)
  {
  }

  lemma RoomLess(P: Pool, n: nat, m: nat)
    requires Room(P, n) && m <= n
    ensures Room(P, m)
  {
    hide Head;
  }

  lemma StringLiteral(f: FieldDesc, v: Val)
    requires Suits(f, v) && f.kind == STR
    ensures v.VStr? && Narrow(f, v) == v && v == VStr(v.s)
  {
  }

  lemma LiteralList(f: FieldDesc, v: Val)
    requires Suits(f, v) && Grows(f)
    ensures f.list
  {
  }

  /** A field of its own has one item. */
  lemma OwnItem(S: Schema, f: FieldDesc, Q: Pool, k: nat, e: nat)
    requires WF(Q) && k < |Q| && e < Head(Q[k]).nelem && !Grows(f)
    ensures |PoolField(S, f, Q, k, e).s| == 1 && !f.list
  {
    hide WF, Head, ScalarVal, StrOf, DecodePoolElem;
  }

  lemma PutListed(S: Schema, mi: nat, P0: Pool, Q: Pool, k: nat, e: nat, r: Obj, i: nat, ref: Ref, n: nat, v: Val,
      have: nat, left: nat)
    returns (R: Pool)
    requires Open(S, mi, P0, Q, k, e, r) && i < |S.msgs[mi].fields| && S.msgs[mi].fields[i].list
    requires Child(S, S.msgs[mi].fields[i], Q, k, e, ref, n) && Suits(S.msgs[mi].fields[i], v)
    requires Room(Q, have) && left < have && (v.VStr? ==> |v.s| + 1 + left <= have)
    ensures PutLiteral(S.msgs[mi].fields[i], Q, ref, v) == Stored(R)
    ensures Open(S, mi, P0, R, k, e, r) && Room(R, left)
    ensures PoolMsg(S, mi, R, k, e)
         == var f, m := S.msgs[mi].fields[i], PoolMsg(S, mi, Q, k, e);
            m[i := Put(f, m[i], Narrow(f, v))]
  {
    hide WF, Open, PutLiteral, PoolField, Narrow, Head, Slot, Tidy, Untouched, WFObj, Frame, Suits, HasShape;
    hide RefOK, ItemAt, Put;
    OpenFacts(S, mi, P0, Q, k, e, r);
    var f := S.msgs[mi].fields[i];
    FieldFacts(S, mi, i);
    RoomSelf(Q, ref.k, have);
    R := PutItem(S, f, Q, k, e, ref, n, v);
    ItemStep(S, mi, P0, Q, R, k, e, r, i, ref, n);
    var items := PoolField(S, f, Q, k, e);
    LastItem(S, f, Q, R, k, e, ref, n);
    OldLast(S, f, Q, k, e, ref, n);
    PutAsLast(f, items, n, ItemAt(S, f, R, ref.k, n), Narrow(f, v));
    FrameElse(Q, R, ref.k, n);
    FrameInside(Q, R, ref.k, n);
    RoomAfter(Q, R, ref.k, have, left);
  }

  lemma OldLast(S: Schema, f: FieldDesc, Q: Pool, k: nat, e: nat, ref: Ref, n: nat)
    requires WF(Q) && Grows(f) && Child(S, f, Q, k, e, ref, n)
    ensures |PoolField(S, f, Q, k, e).s| == n + 1 && PoolField(S, f, Q, k, e).s[n] == ItemAt(S, f, Q, ref.k, n)
  {
    hide WF, Head, Slot, PoolField, ItemAt, HasShape, RefOK;
    FieldItems(S, f, Q, k, e, ref.k);
  }

  // ---------------------------------------------------------------- token lengths

  lemma {:induction false} CharsShort(s: seq<byte>)
    ensures |L.StrChars(s).0| + |L.StrChars(s).1| <= |s|
    decreases |s|
  {
    hide L.Escape;
    if s != [] && s[0] != L.QUOTE {
      CharsShort(s[if s[0] == L.BACKSLASH then L.Escape(s).1 else 1..]);
    }
  }

  lemma {:induction false} StrShort(s: seq<byte>)
    ensures |L.ScanStr(s).tok.s| + |L.ScanStr(s).rest| <= |s|
    decreases |s|
  {
    hide L.StrChars, L.SkipSpaces;
    CharsShort(s);
    var next := L.SkipSpaces(L.StrChars(s).1);
    if next != [] && next[0] == L.QUOTE {
      StrShort(next[1..]);
    }
  }

  /** The text of a token is not longer than the input it was read from. */
  lemma {:induction false} TokenShort(s: seq<byte>)
    ensures var p := L.Lex(s); p.tok.Str? || p.tok.Ident? ==> |p.tok.s| + |p.rest| <= |s|
    decreases |s|, 1
  {
    hide L.LexAt, L.SkipSpaces;
    TokenShortAt(L.SkipSpaces(s));
  }

  lemma {:induction false} TokenShortAt(t: seq<byte>)
    ensures var p := L.LexAt(t); p.tok.Str? || p.tok.Ident? ==> |p.tok.s| + |p.rest| <= |t|
    decreases |t|, 0
  {
    hide L.ScanStr, L.SkipBlock, L.SkipLine, L.IsIdentStart, L.IsDigit, L.Value, L.FloatTail, L.IntToken, L.IsSpace;
    if t != [] {
      if t[0] == L.SLASH && |t| > 1 {
        TokenShort(if t[1] == L.STAR then L.SkipBlock(t[2..])
                   else if t[1] == L.SLASH then L.SkipLine(t[2..])
                   else t[2..]);
      } else if t[0] == L.HASH {
        TokenShort(L.SkipLine(t[1..]));
      } else if t[0] == L.QUOTE {
        StrShort(t[1..]);
      } else if t[0] != L.MINUS || |t| > 1 {
        T.NumberToken(t);
      }
    }
  }

  // ---------------------------------------------------------------- agreement

  /** Both parsers end in the same way at the same place, and with the same message. */
  ghost predicate Agrees(S: Schema, mi: nat, P0: Pool, k: nat, e: nat, r: Obj, c: ParseResult, m: Msg, st: Status,
      p: L.Pos) {
    && c.st == st && c.p == p
    && Open(S, mi, P0, c.P, k, e, r) && PoolMsg(S, mi, c.P, k, e) == m
    && Room(c.P, Left(c.p))
  }

  lemma {:induction false} MsgAgrees(S: Schema, mi: nat, P0: Pool, P: Pool, k: nat, e: nat, r: Obj, p: L.Pos)
    requires Open(S, mi, P0, P, k, e, r) && Room(P, Left(p))
    ensures var a := ReadMsg(S, mi, PoolMsg(S, mi, P, k, e), p);
            Agrees(S, mi, P0, k, e, r, ParseMsg(S, mi, P, k, r, p), a.m, a.st, a.p)
    decreases Left(p), 3
  {
    hide Open, PoolField, WF, Head, Room, FindField, Frame, HasPtr, ParseField, ReadField, Prepared;
    OpenFacts(S, mi, P0, P, k, e, r);
    if p.tok.Ident? {
      var at := FindField(S.msgs[mi].fields, p.tok.s);
      if at.Some? {
        var i := at.value;
        var f := S.msgs[mi].fields[i];
        RepeatedIff(S, mi, P0, P, k, e, r, i);
        if !Repeated(f, PoolMsg(S, mi, P, k, e)[i]) {
          FieldAgrees(S, mi, P0, P, k, e, r, i, p);
          var c := ParseField(S, f, P, k, r, p);
          if c.st == Good {
            RoomLess(c.P, Left(c.p), Left(SkipComma(c.p)));
            MsgAgrees(S, mi, P0, c.P, k, e, r, SkipComma(c.p));
          }
        }
      }
    }
  }

  /** A single message was given already if and only if its slot is not null. */
  lemma RepeatedIff(S: Schema, mi: nat, P0: Pool, P: Pool, k: nat, e: nat, r: Obj, i: nat)
    requires Open(S, mi, P0, P, k, e, r) && i < |S.msgs[mi].fields|
    ensures var f := S.msgs[mi].fields[i];
            f.kind == PTR && !f.list ==> (HasPtr(P, k, r, f.tag0) <==> Repeated(f, PoolMsg(S, mi, P, k, e)[i]))
  {
    hide Open, PoolField, WF, Head, Slot, Frame, RelPtr, ItemAt, Readable, ChildOK;
    OpenFacts(S, mi, P0, P, k, e, r);
    var f := S.msgs[mi].fields[i];
    FieldFacts(S, mi, i);
    if f.kind == PTR && !f.list {
      SlotRead(P, k, e, f.tag0);
      if Slot(P[k], e, f.tag0) == 0 {
        NullField(S, f, P, k, e);
      } else {
        OneChild(S, mi, P0, P, k, e, r, i);
        FieldItems(S, f, P, k, e, Slot(P[k], e, f.tag0));
      }
    }
  }

  lemma OneChild(S: Schema, mi: nat, P0: Pool, P: Pool, k: nat, e: nat, r: Obj, i: nat)
    requires Open(S, mi, P0, P, k, e, r) && i < |S.msgs[mi].fields|
    requires var f := S.msgs[mi].fields[i];
             Grows(f) && !f.list && f.tag0 < Head(P[k]).psize && Slot(P[k], e, f.tag0) != 0
    ensures var t := Slot(P[k], e, S.msgs[mi].fields[i].tag0); t < |P| && Head(P[t]).nelem == 1
  {
    hide WF, WFObj, Head, Slot, Frame, HasShape, SchemaOK, Tidy;
    FrameInside(P0, P, k, e);
    assert ChildOK(S, S.msgs[mi].fields[i], P, k, e, |P0|);
  }

  /** The value of a field: preparing its place, then reading what follows its name. */
  lemma {:induction false} FieldAgrees(S: Schema, mi: nat, P0: Pool, P: Pool, k: nat, e: nat, r: Obj, i: nat, p: L.Pos)
    requires Open(S, mi, P0, P, k, e, r) && Room(P, Left(p)) && p.tok.Ident? && i < |S.msgs[mi].fields|
    requires !Repeated(S.msgs[mi].fields[i], PoolMsg(S, mi, P, k, e)[i])
    ensures var f := S.msgs[mi].fields[i];
            var m := PoolMsg(S, mi, P, k, e);
            var a := ReadField(S, f, Prepared(S, f, m[i]), Next(p));
            Agrees(S, mi, P0, k, e, r, ParseField(S, f, P, k, r, p), m[i := a.items], a.st, a.p)
    decreases Left(p), 2
  {
    hide Open, PoolField, WF, WFObj, Head, Slot, Room, Frame, HasPtr, ParseValue, ReadField, InitPtr, Placed;
    hide Prepared, Agrees;
    OpenFacts(S, mi, P0, P, k, e, r);
    var f := S.msgs[mi].fields[i];
    var m := PoolMsg(S, mi, P, k, e);
    var Q, ref, n := PrepareStep(S, mi, P0, P, k, e, r, i, p);
    OpenFacts(S, mi, P0, Q, k, e, r);
    ValueAgrees(S, mi, P0, Q, k, e, r, i, ref, n, Next(p));
    var a := ReadField(S, f, Prepared(S, f, m[i]), Next(p));
    assert m[i := Prepared(S, f, m[i])][i := a.items] == m[i := a.items];
  }

  /** Preparing the place of a value. */
  lemma PrepareStep(S: Schema, mi: nat, P0: Pool, P: Pool, k: nat, e: nat, r: Obj, i: nat, p: L.Pos)
    returns (Q: Pool, ref: Ref, n: nat)
    requires Open(S, mi, P0, P, k, e, r) && Room(P, Left(p)) && p.tok.Ident? && i < |S.msgs[mi].fields|
    requires !Repeated(S.msgs[mi].fields[i], PoolMsg(S, mi, P, k, e)[i])
    ensures var f := S.msgs[mi].fields[i];
            var m := PoolMsg(S, mi, P, k, e);
            && (if Grows(f) then InitPtr(S, f, P, k, r) == Ready(Q, ref) else Q == P && ref == Ref(k, r, f.tag0))
            && Open(S, mi, P0, Q, k, e, r) && Room(Q, Left(Next(p)))
            && Placed(S, f, Q, k, e, r, ref, n)
            && PoolMsg(S, mi, Q, k, e) == m[i := Prepared(S, f, m[i])]
  {
    hide Open, PoolField, WF, WFObj, Head, Slot, Room, Frame, InitPtr, Child, Untouched, Blank, RelPtr;
    OpenFacts(S, mi, P0, P, k, e, r);
    FieldFacts(S, mi, i);
    var f := S.msgs[mi].fields[i];
    if !Grows(f) {
      Q, ref, n := P, Ref(k, r, f.tag0), 0;
      RoomLess(P, Left(p), Left(Next(p)));
    } else {
      GrowsIsPtr(f);
      PtrTag(S.msgs[mi], f);
      var t := Slot(P[k], e, f.tag0);
      if t == 0 {
        n := 0;
        Q, ref := FirstStep(S, mi, P0, P, k, e, r, i, Left(p), Left(Next(p)));
      } else {
        NotRepeated(S, mi, P0, P, k, e, r, i);
        Q, ref := GrowStep(S, mi, P0, P, k, e, r, i, t, Left(p), Left(Next(p)));
        n := Head(P[t]).nelem;
      }
    }
  }

  lemma NotRepeated(S: Schema, mi: nat, P0: Pool, P: Pool, k: nat, e: nat, r: Obj, i: nat)
    requires Open(S, mi, P0, P, k, e, r) && i < |S.msgs[mi].fields| && Grows(S.msgs[mi].fields[i])
    requires S.msgs[mi].fields[i].tag0 < Head(P[k]).psize && Slot(P[k], e, S.msgs[mi].fields[i].tag0) != 0
    requires !Repeated(S.msgs[mi].fields[i], PoolMsg(S, mi, P, k, e)[i])
    ensures S.msgs[mi].fields[i].list
  {
    hide Open, PoolField, WF, Head, Slot, Frame, RelPtr, ItemAt, Readable, ChildOK;
    OpenFacts(S, mi, P0, P, k, e, r);
    var f := S.msgs[mi].fields[i];
    if !f.list {
      OneChild(S, mi, P0, P, k, e, r, i);
      FieldItems(S, f, P, k, e, Slot(P[k], e, f.tag0));
    }
  }

  lemma LiteralSuits(S: Schema, f: FieldDesc, tok: L.Token)
    requires ReadLiteral(S, f, tok).Lit? && f.kind != PTR
    ensures Suits(f, ReadLiteral(S, f, tok).v)
    ensures ReadLiteral(S, f, tok).v.VStr? ==> (tok.Str? || tok.Ident?) && ReadLiteral(S, f, tok).v.s == tok.s
    ensures tok != L.Eof
  {
  }

  /** A colon and a literal. */
  lemma LiteralAgrees(S: Schema, mi: nat, P0: Pool, Q: Pool, k: nat, e: nat, r: Obj, i: nat, ref: Ref, n: nat, p: L.Pos)
    requires Open(S, mi, P0, Q, k, e, r) && Room(Q, Left(p)) && i < |S.msgs[mi].fields|
    requires Placed(S, S.msgs[mi].fields[i], Q, k, e, r, ref, n) && S.msgs[mi].fields[i].kind != PTR
    ensures var f := S.msgs[mi].fields[i];
            var m := PoolMsg(S, mi, Q, k, e);
            var a := ReadField(S, f, m[i], p);
            Agrees(S, mi, P0, k, e, r, ParseValue(S, f, Q, ref, p), m[i := a.items], a.st, a.p)
  {
    hide Open, PoolField, WF, WFObj, Head, Slot, Room, Frame, Placed, ReadLiteral, PutLiteral, Narrow, Put, L.Lex;
    OpenFacts(S, mi, P0, Q, k, e, r);
    var f := S.msgs[mi].fields[i];
    var m := PoolMsg(S, mi, Q, k, e);
    assert m[i := m[i]] == m;
    if p.tok == L.Punct(L.COLON) {
      var q := Next(p);
      RoomLess(Q, Left(p), Left(q));
      var lit := ReadLiteral(S, f, q.tok);
      if lit.Lit? {
        LiteralSuits(S, f, q.tok);
        TokenShort(p.rest);
        var R := PutStep(S, mi, P0, Q, k, e, r, i, ref, n, lit.v, Left(p), Left(Next(q)));
      }
    }
  }

  /** A new item of a message field is open and empty. */
  lemma NestedOpens(S: Schema, f: FieldDesc, Q: Pool, k: nat, e: nat, ref: Ref, n: nat)
    requires SchemaOK(S) && FieldOK(S, f) && f.kind == PTR && WF(Q) && Tidy(Q)
    requires Child(S, f, Q, k, e, ref, n) && WFObj(Q[ref.k]) && Untouched(Q[ref.k], n)
    ensures Open(S, f.tag1, Q, Q, ref.k, n, ref.r)
    ensures n < Head(Q[ref.k]).nelem && PoolMsg(S, f.tag1, Q, ref.k, n) == Empty(S, f.tag1)
  {
    hide WF, WFObj, Head, Slot, PoolScalar, Tidy, SchemaOK, PoolBit, Frame, Empty;
    FrameRefl(Q, ref.k, n);
    BlankMsg(S, f.tag1, Q, ref.k, n);
  }

  /** What follows the name of a field, up to the end of its value. */
  lemma {:induction false} ValueAgrees(S: Schema, mi: nat, P0: Pool, Q: Pool, k: nat, e: nat, r: Obj, i: nat,
      ref: Ref, n: nat, p: L.Pos)
    requires Open(S, mi, P0, Q, k, e, r) && Room(Q, Left(p)) && i < |S.msgs[mi].fields|
    requires Placed(S, S.msgs[mi].fields[i], Q, k, e, r, ref, n)
    ensures var f := S.msgs[mi].fields[i];
            var m := PoolMsg(S, mi, Q, k, e);
            var a := ReadField(S, f, m[i], p);
            Agrees(S, mi, P0, k, e, r, ParseValue(S, f, Q, ref, p), m[i := a.items], a.st, a.p)
    decreases Left(p), 1
  {
    hide Open, PoolField, WF, WFObj, Head, Slot, Room, Frame, Placed, ReadNested, ParseMsg, ParseLiteral;
    hide Untouched, Child, Tidy;
    OpenFacts(S, mi, P0, Q, k, e, r);
    var f := S.msgs[mi].fields[i];
    if f.kind != PTR {
      LiteralAgrees(S, mi, P0, Q, k, e, r, i, ref, n, p);
    } else {
      var m := PoolMsg(S, mi, Q, k, e);
      assert m[i := m[i]] == m;
      FieldFacts(S, mi, i);
      var q := if p.tok == L.Punct(L.COLON) then Next(p) else p;
      RoomLess(Q, Left(p), Left(q));
      if q.tok == L.Punct(L.OPEN) {
        PlacedChild(S, f, Q, k, e, r, ref, n);
        NestedOpens(S, f, Q, k, e, ref, n);
        RoomLess(Q, Left(q), Left(Next(q)));
        MsgAgrees(S, f.tag1, Q, Q, ref.k, n, ref.r, Next(q));
        NestedAgrees(S, mi, P0, Q, k, e, r, i, ref, n, q);
      }
    }
  }

  lemma PlacedChild(S: Schema, f: FieldDesc, Q: Pool, k: nat, e: nat, r: Obj, ref: Ref, n: nat)
    requires WF(Q) && Placed(S, f, Q, k, e, r, ref, n) && f.kind == PTR
    ensures Child(S, f, Q, k, e, ref, n) && WFObj(Q[ref.k]) && Untouched(Q[ref.k], n)
  {
  }

  /** A message in braces, once its fields agree. */
  lemma NestedAgrees(S: Schema, mi: nat, P0: Pool, Q: Pool, k: nat, e: nat, r: Obj, i: nat, ref: Ref, n: nat, q: L.Pos)
    requires Open(S, mi, P0, Q, k, e, r) && i < |S.msgs[mi].fields| && S.msgs[mi].fields[i].kind == PTR
    requires S.msgs[mi].fields[i].tag1 < |S.msgs| && q.tok == L.Punct(L.OPEN)
    requires Child(S, S.msgs[mi].fields[i], Q, k, e, ref, n)
    requires PoolMsg(S, S.msgs[mi].fields[i].tag1, Q, ref.k, n) == Empty(S, S.msgs[mi].fields[i].tag1)
    requires var mj := S.msgs[mi].fields[i].tag1;
             var a := ReadMsg(S, mj, Empty(S, mj), Next(q));
             Agrees(S, mj, Q, ref.k, n, ref.r, ParseMsg(S, mj, Q, ref.k, ref.r, Next(q)), a.m, a.st, a.p)
    ensures var f := S.msgs[mi].fields[i];
            var m := PoolMsg(S, mi, Q, k, e);
            var a := ReadNested(S, f, m[i], q);
            var c := ParseMsg(S, f.tag1, Q, ref.k, ref.r, Next(q));
            var d := if c.st != Good then c
                     else if c.p.tok == L.Punct(L.CLOSE) then ParseResult(c.P, Good, Next(c.p))
                     else ParseResult(c.P, Bad, c.p);
            Agrees(S, mi, P0, k, e, r, d, m[i := a.items], a.st, a.p)
  {
    hide Open, PoolField, WF, WFObj, Head, Slot, Room, Frame, ReadMsg, ParseMsg, ItemAt, HasShape, RefOK, Empty, Put;
    OpenFacts(S, mi, P0, Q, k, e, r);
    var f := S.msgs[mi].fields[i];
    var m := PoolMsg(S, mi, Q, k, e);
    var c := ParseMsg(S, f.tag1, Q, ref.k, ref.r, Next(q));
    var R := c.P;
    OldLast(S, f, Q, k, e, ref, n);
    MsgItem(S, f, Q, ref.k, n);
    NestedFrame(S, f.tag1, Q, R, ref.k, n, ref.r);
    ItemStep(S, mi, P0, Q, R, k, e, r, i, ref, n);
    MsgItem(S, f, R, ref.k, n);
    PutAsLast(f, m[i], n, ItemAt(S, f, R, ref.k, n), ItemAt(S, f, R, ref.k, n));
    RoomLess(R, Left(c.p), if c.p.tok == L.Punct(L.CLOSE) then Left(Next(c.p)) else Left(c.p));
  }

  lemma NestedFrame(S: Schema, mj: nat, Q: Pool, R: Pool, t: nat, n: nat, r: Obj)
    requires Open(S, mj, Q, R, t, n, r)
    ensures WF(Q) && WF(R) && Tidy(R) && Frame(Q, R, t, n)
  {
  }
}
