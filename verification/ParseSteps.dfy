/** What each step of the parser does to an open message. */
module ParseSteps {
  import opened Bytes
  import opened Wire
  import opened Pool
  import opened Decode
  import opened Cells
  import opened Forest
  import opened Schemas
  import opened Views
  import opened ValueParser
  import opened PoolParser
  import opened ParseSim

  // ---------------------------------------------------------------- a new object behind a field

  /** Linking a new object behind field i leaves the other fields. */
  lemma LinkViews(S: Schema, mi: nat, P0: Pool, P: Pool, Q: Pool, k: nat, e: nat, r: Obj, i: nat, b: seq<byte>)
    requires Open(S, mi, P0, P, k, e, r) && i < |S.msgs[mi].fields| && IsPtr(S.msgs[mi].fields[i])
    requires WF(Q) && LinkedNew(P, Q, k, e, S.msgs[mi].fields[i].tag0, b)
    requires Grows(S.msgs[mi].fields[i]) ==> HasShape(S, S.msgs[mi].fields[i], Head(b)) && Head(b).nelem == 1
    ensures Open(S, mi, P0, Q, k, e, r)
    ensures forall j :: 0 <= j < |S.msgs[mi].fields| && j != i ==>
              PoolField(S, S.msgs[mi].fields[j], Q, k, e) == PoolField(S, S.msgs[mi].fields[j], P, k, e)
  {
    hide WF, WFObj, Slot, Head, PoolScalar, Tidy, SchemaOK, PoolField, HasShape, Frame, LinkedNew, ChildOK;
    FrameInside(P0, P, k, e);
    LinkedFrame(P, Q, k, e, S.msgs[mi].fields[i].tag0, b);
    FrameInside(P, Q, k, e);
    FrameTrans(P0, P, Q, k, e);
    forall j | 0 <= j < |S.msgs[mi].fields|
      ensures j != i ==> PoolField(S, S.msgs[mi].fields[j], Q, k, e) == PoolField(S, S.msgs[mi].fields[j], P, k, e)
      ensures ChildOK(S, S.msgs[mi].fields[j], Q, k, e, |P0|)
    {
      if j != i {
        LinkView(S, mi, P, Q, k, e, i, j, b);
        LinkChild(S, mi, P, Q, k, e, i, j, b, |P0|);
      } else {
        NewChild(S, S.msgs[mi].fields[i], P, Q, k, e, b, |P0|);
      }
    }
  }

  lemma LinkedFrame(P: Pool, Q: Pool, k: nat, e: nat, i: nat, b: seq<byte>)
    requires WF(P) && WF(Q) && LinkedNew(P, Q, k, e, i, b)
    ensures Frame(P, Q, k, e) && Tidy(Q) && |Q| == |P| + 1 && Q[|P|] == b
  {
  }

  lemma NewChild(S: Schema, f: FieldDesc, P: Pool, Q: Pool, k: nat, e: nat, b: seq<byte>, lo: nat)
    requires WF(P) && WF(Q) && LinkedNew(P, Q, k, e, f.tag0, b) && lo <= |P|
    requires Grows(f) ==> HasShape(S, f, Head(b)) && Head(b).nelem == 1
    ensures ChildOK(S, f, Q, k, e, lo)
  {
    hide WF, WFObj, Slot, Head, PoolScalar, Tidy, HasShape;
  }

  lemma LinkView(S: Schema, mi: nat, P: Pool, Q: Pool, k: nat, e: nat, i: nat, j: nat, b: seq<byte>)
    requires SchemaOK(S) && mi < |S.msgs| && i < |S.msgs[mi].fields| && j < |S.msgs[mi].fields| && i != j
    requires IsPtr(S.msgs[mi].fields[i])
    requires WF(P) && WF(Q) && LinkedNew(P, Q, k, e, S.msgs[mi].fields[i].tag0, b)
    requires Head(P[k]).psize == S.msgs[mi].psize
    ensures PoolField(S, S.msgs[mi].fields[j], Q, k, e) == PoolField(S, S.msgs[mi].fields[j], P, k, e)
  {
    hide WF, WFObj, Slot, Head, PoolScalar, Tidy, PoolField, ScalarVal, DecodeSlot, SchemaOK;
    var g := S.msgs[mi].fields[j];
    FieldFacts(S, mi, j);
    PairFacts(S, mi, i, j);
    if IsPtr(g) {
      PtrFieldSame(S, g, P, Q, k, e);
    } else {
      ScalarField(S, g, P, k, e);
      ScalarField(S, g, Q, k, e);
    }
  }

  lemma LinkChild(S: Schema, mi: nat, P: Pool, Q: Pool, k: nat, e: nat, i: nat, j: nat, b: seq<byte>, lo: nat)
    requires SchemaOK(S) && mi < |S.msgs| && i < |S.msgs[mi].fields| && j < |S.msgs[mi].fields| && i != j
    requires IsPtr(S.msgs[mi].fields[i])
    requires WF(P) && WF(Q) && LinkedNew(P, Q, k, e, S.msgs[mi].fields[i].tag0, b)
    requires ChildOK(S, S.msgs[mi].fields[j], P, k, e, lo)
    ensures ChildOK(S, S.msgs[mi].fields[j], Q, k, e, lo)
  {
    hide WF, WFObj, Slot, Head, PoolScalar, Tidy, ScalarVal, DecodeSlot, SchemaOK, HasShape;
    var g := S.msgs[mi].fields[j];
    PairFacts(S, mi, i, j);
    if Grows(g) && g.tag0 < Head(P[k]).psize {
      var o := Owner(k, e, g.tag0);
      assert Target(P, o) == Slot(P[k], e, g.tag0);
      if Target(P, o) != 0 {
        TargetInside(P, o);
      }
    }
  }

  /** Room for less input, after at most one new object. */
  lemma RoomAfter(P: Pool, Q: Pool, k: nat, n: nat, m: nat)
    requires WF(P) && WF(Q) && k < |P| <= |Q| <= |P| + 1 && Room(P, n) && m < n
    requires forall j :: 0 <= j < |P| && j != k ==> Q[j] == P[j]
    requires Head(Q[k]).nelem + m <= 0x4000_0000
    requires |Q| > |P| ==> Head(Q[|P|]).nelem + m <= 0x4000_0000
    ensures Room(Q, m)
  {
    hide WF, Head;
  }

  /** A string field gets its value. */
  lemma StringStep(S: Schema, mi: nat, P0: Pool, P: Pool, k: nat, e: nat, r: Obj, i: nat, s: seq<byte>, n: nat, m: nat)
    returns (Q: Pool)
    requires Open(S, mi, P0, P, k, e, r) && i < |S.msgs[mi].fields|
    requires S.msgs[mi].fields[i].kind == STR && !S.msgs[mi].fields[i].list
    requires Room(P, n) && |s| + 1 + m <= n
    ensures PutLiteral(S.msgs[mi].fields[i], P, Ref(k, r, S.msgs[mi].fields[i].tag0), VStr(s)) == Stored(Q)
    ensures Open(S, mi, P0, Q, k, e, r) && Room(Q, m)
    ensures PoolMsg(S, mi, Q, k, e) == PoolMsg(S, mi, P, k, e)[i := Items([VStr(s)])]
  {
    hide WF, WFObj, Slot, Head, PoolScalar, Tidy, SchemaOK, PoolField, ChildOK, StrObj, Frame, ElemHandle, LinkedNew;
    var f := S.msgs[mi].fields[i];
    FrameInside(P0, P, k, e);
    FieldFacts(S, mi, i);
    Q := PutString(P, k, e, r, f.tag0, s);
    LinkViews(S, mi, P0, P, Q, k, e, r, i, StrObj(s));
    FrameInside(P0, Q, k, e);
    StringField(S, f, Q, k, e, s);
    OneField(S, mi, P, Q, k, e, i, Items([VStr(s)]));
    LinkedFrame(P, Q, k, e, f.tag0, StrObj(s));
    StrObjOK(s);
    FrameElse(P, Q, k, e);
    RoomSelf(P, k, n);
    RoomAfter(P, Q, k, n, m);
  }

  lemma RoomSelf(P: Pool, k: nat, n: nat)
    requires Room(P, n) && k < |P|
    ensures Head(P[k]).nelem + n <= 0x4000_0000
  {
  }

  lemma FrameElse(P: Pool, Q: Pool, k: nat, e: nat)
    requires WF(P) && WF(Q) && Frame(P, Q, k, e)
    ensures k < |P| && forall j :: 0 <= j < |P| && j != k ==> Q[j] == P[j]
  {
  }

  lemma StringField(S: Schema, f: FieldDesc, Q: Pool, k: nat, e: nat, s: seq<byte>)
    requires WF(Q) && k < |Q| && e < Head(Q[k]).nelem && f.tag0 < Head(Q[k]).psize && f.kind == STR && !f.list
    requires DecodeSlot(Q, k, e, f.tag0).Node? && StrOf(DecodeSlot(Q, k, e, f.tag0)) == s
    ensures PoolField(S, f, Q, k, e) == Items([VStr(s)])
  {
    hide WF, WFObj, Slot, Head, PoolScalar, DecodeSlot, StrOf;
    ElemParts(Q, k, e);
  }

  // ---------------------------------------------------------------- what was never written

  lemma ZeroScalar(S: Schema, f: FieldDesc, n: nat, tag: nat)
    requires FieldOK(S, f) && f.kind != STR && f.kind != PTR
    ensures ScalarVal(f, Zeros(n), tag) == BlankScalar(f)
  {
    var sc := Zeros(n);
    if f.kind == BOOL {
      ZeroBit(tag % 8);
    } else {
      var w := ScalarWidth(f);
      if tag + w <= n {
        assert sc[tag..tag + w] == Zeros(w);
        ZerosDecode(w);
      }
      ZeroSigned(w);
    }
  }

  lemma ZeroSigned(w: nat)
    ensures Signed(0, w) == 0 && 0 % Pow256(w) == 0
  {
  }

  /** A blank element reads as an empty message. */
  lemma BlankMsg(S: Schema, mi: nat, Q: Pool, t: nat, n: nat)
    requires SchemaOK(S) && mi < |S.msgs|
    requires WF(Q) && t < |Q| && n < Head(Q[t]).nelem && WFObj(Q[t]) && Untouched(Q[t], n)
    ensures PoolMsg(S, mi, Q, t, n) == Empty(S, mi)
  {
    hide WF, WFObj, Slot, Head, PoolScalar, SchemaOK, PoolField, PoolBit;
    forall i | 0 <= i < |S.msgs[mi].fields|
      ensures PoolField(S, S.msgs[mi].fields[i], Q, t, n)
           == if Grows(S.msgs[mi].fields[i]) then Items([]) else Items([BlankScalar(S.msgs[mi].fields[i])])
    {
      FieldFacts(S, mi, i);
      BlankField(S, S.msgs[mi].fields[i], Q, t, n);
    }
  }

  lemma BlankField(S: Schema, f: FieldDesc, Q: Pool, t: nat, n: nat)
    requires FieldOK(S, f) && WF(Q) && t < |Q| && n < Head(Q[t]).nelem && WFObj(Q[t]) && Untouched(Q[t], n)
    ensures PoolField(S, f, Q, t, n) == if Grows(f) then Items([]) else Items([BlankScalar(f)])
  {
    hide WF, WFObj, Slot, Head, PoolScalar, PoolBit, DecodeSlot, ScalarVal;
    if !IsPtr(f) {
      ScalarField(S, f, Q, t, n);
      ZeroScalar(S, f, Head(Q[t]).ssize, f.tag0);
    } else if f.tag0 < Head(Q[t]).psize {
      NullField(S, f, Q, t, n);
    } else {
      ElemParts(Q, t, n);
      assert StrOf(Null) == [];
    }
  }

  /** A blank item of a list or message field. */
  lemma BlankItem(S: Schema, f: FieldDesc, Q: Pool, t: nat, n: nat)
    requires SchemaOK(S) && FieldOK(S, f) && WF(Q) && t < |Q| && HasShape(S, f, Head(Q[t]))
    requires n < Head(Q[t]).nelem && WFObj(Q[t]) && Untouched(Q[t], n)
    ensures ItemAt(S, f, Q, t, n) == Blank(S, f)
  {
    hide WF, WFObj, Slot, Head, PoolScalar, SchemaOK, DecodeSlot, ScalarVal, ItemAt, Empty;
    if f.kind == BOOL {
      BoolItem(S, f, Q, t, n);
    } else if f.kind == STR {
      StrItem(S, f, Q, t, n);
      NullSlot(Q, t, n, 0);
      assert StrOf(Null) == [];
    } else if f.kind == PTR {
      BlankMsg(S, f.tag1, Q, t, n);
      MsgItem(S, f, Q, t, n);
    } else {
      ScalarItem(S, f, Q, t, n);
      ZeroScalar(S, f, Head(Q[t]).ssize, 0);
    }
  }

  // ---------------------------------------------------------------- items of an object

  /** Item n of the object behind a list or message field. */
  function ItemAt(S: Schema, f: FieldDesc, Q: Pool, t: nat, n: nat): Val
    requires WF(Q) && t < |Q| && n < Head(Q[t]).nelem
  {
    ViewItem(S, f, DecodePool(Q, t), n)
  }

  lemma BoolItem(S: Schema, f: FieldDesc, Q: Pool, t: nat, n: nat)
    requires f.kind == BOOL && FieldOK(S, f) && WF(Q) && t < |Q| && n < Head(Q[t]).nelem && HasShape(S, f, Head(Q[t]))
    ensures WFObj(Q[t]) && ItemAt(S, f, Q, t, n) == VBool(PoolBit(Q[t], n))
  {
    hide WF, WFObj, Head, Bit, PayloadSize;
    ObjAt(Q, t);
    var b := Q[t];
    BitInside(b, n);
    BitIs(b, n);
    hide PoolBit, RawBit;
    assert PoolRaw(b)[n / 8] == b[8 + n / 8];
  }

  lemma StrItem(S: Schema, f: FieldDesc, Q: Pool, t: nat, n: nat)
    requires f.kind == STR && WF(Q) && t < |Q| && n < Head(Q[t]).nelem && HasShape(S, f, Head(Q[t]))
    ensures ItemAt(S, f, Q, t, n) == VStr(StrOf(DecodeSlot(Q, t, n, 0)))
  {
    hide WF, WFObj, Head, DecodeSlot, StrOf, PoolRaw, PoolScalar;
    ElemParts(Q, t, n);
  }

  lemma MsgItem(S: Schema, f: FieldDesc, Q: Pool, t: nat, n: nat)
    requires f.kind == PTR && f.tag1 < |S.msgs| && WF(Q) && t < |Q| && n < Head(Q[t]).nelem
    ensures ItemAt(S, f, Q, t, n) == VMsg(PoolMsg(S, f.tag1, Q, t, n))
  {
    hide WF, WFObj, Head, DecodePoolElem, PoolRaw, PoolScalar, ViewField;
  }

  lemma ScalarItem(S: Schema, f: FieldDesc, Q: Pool, t: nat, n: nat)
    requires f.kind in {ENUM, INT, UINT} && WF(Q) && t < |Q| && n < Head(Q[t]).nelem
    ensures WFObj(Q[t]) && ItemAt(S, f, Q, t, n) == ScalarVal(f, PoolScalar(Q[t], n), 0)
  {
    hide WF, WFObj, Head, PoolRaw, PoolScalar, ScalarVal;
    ElemParts(Q, t, n);
  }

  /** The items of an object, as a list. */
  lemma ListItems(S: Schema, f: FieldDesc, Q: Pool, t: nat)
    requires WF(Q) && t < |Q|
    ensures |ViewList(S, f, DecodePool(Q, t))| == Head(Q[t]).nelem
    ensures forall d :: 0 <= d < Head(Q[t]).nelem ==> ViewList(S, f, DecodePool(Q, t))[d] == ItemAt(S, f, Q, t, d)
  {
    hide WF, WFObj, Head, PoolRaw, DecodePoolElem, ViewItem;
  }

  /** An item whose scalars, slots and bits stay, and the trees behind them, stays. */
  lemma ItemKept(S: Schema, f: FieldDesc, P: Pool, Q: Pool, t: nat, d: nat)
    requires WF(P) && WF(Q) && t < |P| <= |Q| && d < Head(P[t]).nelem && d < Head(Q[t]).nelem
    requires FieldOK(S, f) && HasShape(S, f, Head(P[t])) && HasShape(S, f, Head(Q[t]))
    requires WFObj(P[t]) && WFObj(Q[t]) && SameElem(P[t], Q[t], d) && PoolBit(Q[t], d) == PoolBit(P[t], d)
    requires forall j :: 0 <= j < |P| && j != t ==> Q[j] == P[j]
    ensures ItemAt(S, f, Q, t, d) == ItemAt(S, f, P, t, d)
  {
    hide WF, WFObj, Slot, Head, PoolScalar, DecodeSlot, ScalarVal, ItemAt, PoolBit;
    if f.kind == BOOL {
      BoolItem(S, f, P, t, d);
      BoolItem(S, f, Q, t, d);
    } else if f.kind == STR {
      StrItem(S, f, P, t, d);
      StrItem(S, f, Q, t, d);
      SlotKept(P, Q, t, d, 0);
    } else if f.kind == PTR {
      MsgItem(S, f, P, t, d);
      MsgItem(S, f, Q, t, d);
      ElemKept(P, Q, t, d);
    } else {
      ScalarItem(S, f, P, t, d);
      ScalarItem(S, f, Q, t, d);
    }
  }

  lemma ElemKept(P: Pool, Q: Pool, t: nat, d: nat)
    requires WF(P) && WF(Q) && t < |P| <= |Q| && d < Head(P[t]).nelem && d < Head(Q[t]).nelem
    requires Head(P[t]).psize == Head(Q[t]).psize && WFObj(P[t]) && WFObj(Q[t]) && SameElem(P[t], Q[t], d)
    requires forall j :: 0 <= j < |P| && j != t ==> Q[j] == P[j]
    ensures DecodePoolElem(Q, t, d) == DecodePoolElem(P, t, d)
  {
    hide WF, WFObj, Slot, Head, PoolScalar, DecodeSlot, DecodePoolElem;
    ElemParts(P, t, d);
    ElemParts(Q, t, d);
    forall i | 0 <= i < Head(P[t]).psize
      ensures DecodeSlot(Q, t, d, i) == DecodeSlot(P, t, d, i)
    {
      SlotKept(P, Q, t, d, i);
    }
    SameElems(DecodePoolElem(Q, t, d), DecodePoolElem(P, t, d));
  }

  lemma SameElems(a: Elem, b: Elem)
    requires a.scalar == b.scalar && |a.kids| == |b.kids|
    requires forall i :: 0 <= i < |a.kids| ==> a.kids[i] == b.kids[i]
    ensures a == b
  {
  }

  // ---------------------------------------------------------------- creating and growing

  /** The reference designates item n of the object with that header. */
  predicate RefOK(f: FieldDesc, h: Obj, n: nat, ref: Ref) {
    && (ElemSize(h) != 0 ==> ref.r == ElemHandle(h, n) && ref.tag == 0)
    && (f.kind == BOOL && n == 0 ==> ref.r == h)
    && (f.kind == BOOL && n > 0 ==> ref.r == GetElem(h, n) && ref.tag == n % 8)
  }

  /** The reference designates the last item, number n, of the object behind field f. */
  ghost predicate Child(S: Schema, f: FieldDesc, Q: Pool, k: nat, e: nat, ref: Ref, n: nat)
    requires WF(Q)
  {
    && k < |Q| && e < Head(Q[k]).nelem && f.tag0 < Head(Q[k]).psize
    && Slot(Q[k], e, f.tag0) == ref.k != 0 && k < ref.k < |Q|
    && HasShape(S, f, Head(Q[ref.k])) && Head(Q[ref.k]).nelem == n + 1
    && (!f.list ==> n == 0)
    && RefOK(f, Head(Q[ref.k]), n, ref)
  }

  lemma FirstShape(S: Schema, f: FieldDesc)
    requires SchemaOK(S) && FieldOK(S, f)
    ensures var o := Obj(8, 1, ItemShape(S, f).0, ItemShape(S, f).1);
            ValidShape(o) && HasShape(S, f, o) && RefOK(f, o, 0, Ref(0, o, 0))
  {
    if f.kind == PTR {
      assert MsgOK(S, S.msgs[f.tag1]);
    }
  }

  /** How many bytes the items of a list take: bools a bit each, enums two bytes, integers their width,
      strings a word, and messages what their elements take. */
  lemma ItemBytes(S: Schema, f: FieldDesc, Q: Pool, t: nat)
    requires SchemaOK(S) && FieldOK(S, f) && WF(Q) && t < |Q| && HasShape(S, f, Head(Q[t]))
    ensures var n, size := Head(Q[t]).nelem, PayloadSize(Head(Q[t]));
            match f.kind
            case BOOL => size == (n + 7) / 8
            case ENUM => size == 2 * n
            case STR => size == 4 * n && Head(Q[t]).ssize == 0
            case PTR =>
              var each := S.msgs[f.tag1].ssize + 4 * S.msgs[f.tag1].psize;
              size == if each == 0 then (n + 7) / 8 else each * n
            case _ => size == f.tag1 * n
  {
    hide WF, Head, SchemaOK;
    ObjAt(Q, t);
    ObjExtent(Q[t]);
  }

  /** A field that has no object yet gets one with a single blank element. */
  lemma FirstStep(S: Schema, mi: nat, P0: Pool, P: Pool, k: nat, e: nat, r: Obj, i: nat, n: nat, m: nat)
    returns (Q: Pool, ref: Ref)
    requires Open(S, mi, P0, P, k, e, r) && i < |S.msgs[mi].fields| && Grows(S.msgs[mi].fields[i])
    requires Slot(P[k], e, S.msgs[mi].fields[i].tag0) == 0
    requires Room(P, n) && m < n
    ensures InitPtr(S, S.msgs[mi].fields[i], P, k, r) == Ready(Q, ref)
    ensures Open(S, mi, P0, Q, k, e, r) && Room(Q, m)
    ensures Child(S, S.msgs[mi].fields[i], Q, k, e, ref, 0) && WFObj(Q[ref.k]) && Untouched(Q[ref.k], 0)
    ensures ref.k == |P| < |Q| && forall j :: 0 <= j < |P| && j != k ==> Q[j] == P[j]
    ensures PoolMsg(S, mi, Q, k, e)
         == PoolMsg(S, mi, P, k, e)[i := Prepared(S, S.msgs[mi].fields[i], PoolMsg(S, mi, P, k, e)[i])]
  {
    hide WF, WFObj, Slot, Head, PoolScalar, Tidy, SchemaOK, PoolField, ChildOK, Frame, LinkedNew, ValidShape;
    hide NewObj, HasShape, RefOK, Untouched, Blank, ItemShape, InitPtr, Child, IsPtr;
    var f := S.msgs[mi].fields[i];
    FrameInside(P0, P, k, e);
    FieldFacts(S, mi, i);
    assert IsPtr(f) by { GrowsIsPtr(f); }
    PtrTag(S.msgs[mi], f);
    Q, ref := FirstPool(S, f, P, k, e, r, n);
    var o := Obj(8, 1, ItemShape(S, f).0, ItemShape(S, f).1);
    FirstShape(S, f);
    NewCells(o);
    LinkViews(S, mi, P0, P, Q, k, e, r, i, NewObj(o));
    FrameInside(P0, Q, k, e);
    NullField(S, f, P, k, e);
    NewItems(S, f, P, Q, k, e, o);
    FirstItems(S, f);
    OneField(S, mi, P, Q, k, e, i, Items([Blank(S, f)]));
    FirstRoom(P, Q, k, e, f.tag0, NewObj(o), n, m);
    LinkedFrame(P, Q, k, e, f.tag0, NewObj(o));
    FrameElse(P, Q, k, e);
  }

  lemma FirstItems(S: Schema, f: FieldDesc)
    requires Grows(f)
    ensures Prepared(S, f, Items([])) == Items([Blank(S, f)])
  {
  }

  lemma GrowsIsPtr(f: FieldDesc)
    requires Grows(f)
    ensures IsPtr(f)
  {
  }

  lemma FirstRoom(P: Pool, Q: Pool, k: nat, e: nat, i: nat, b: seq<byte>, n: nat, m: nat)
    requires WF(P) && WF(Q) && LinkedNew(P, Q, k, e, i, b) && Room(P, n) && m < n && Head(b).nelem == 1
    ensures Room(Q, m)
  {
    hide WF, WFObj, Slot, Head, PoolScalar, Tidy, Frame;
    FrameElse(P, Q, k, e);
    FrameInside(P, Q, k, e);
    RoomSelf(P, k, n);
    RoomAfter(P, Q, k, n, m);
  }

  lemma FirstPool(S: Schema, f: FieldDesc, P: Pool, k: nat, e: nat, r: Obj, n: nat) returns (Q: Pool, ref: Ref)
    requires SchemaOK(S) && FieldOK(S, f) && WF(P) && Tidy(P) && Room(P, n)
    requires k < |P| && e < Head(P[k]).nelem && f.tag0 < Head(P[k]).psize
    requires r == ElemHandle(Head(P[k]), e) && Slot(P[k], e, f.tag0) == 0
    ensures var o := Obj(8, 1, ItemShape(S, f).0, ItemShape(S, f).1);
            InitPtr(S, f, P, k, r) == Ready(Q, ref) && WF(Q) && LinkedNew(P, Q, k, e, f.tag0, NewObj(o))
    ensures Child(S, f, Q, k, e, ref, 0) && WFObj(Q[ref.k]) && Untouched(Q[ref.k], 0) && ref.k == |P|
  {
    hide WF, WFObj, Slot, Head, PoolScalar, Tidy, SchemaOK, LinkedNew, ValidShape, InitPtr, FieldOK;
    hide NewObj, HasShape, RefOK, Untouched, ItemShape, Linked, Child, NoLinks, SpareBitsZero;
    FirstShape(S, f);
    var o := Obj(8, 1, ItemShape(S, f).0, ItemShape(S, f).1);
    NewCells(o);
    LinkNew(P, k, e, f.tag0, NewObj(o));
    Q := Linked(P, k, e, f.tag0, NewObj(o));
    ref := Ref(|P|, o, 0);
    InitFirst(S, f, P, k, e, r);
    FirstChild(S, f, P, Q, k, e, o);
  }

  lemma InitFirst(S: Schema, f: FieldDesc, P: Pool, k: nat, e: nat, r: Obj)
    requires WF(P) && k < |P| && e < Head(P[k]).nelem && f.tag0 < Head(P[k]).psize
    requires r == ElemHandle(Head(P[k]), e) && Slot(P[k], e, f.tag0) == 0
    requires ValidShape(Obj(8, 1, ItemShape(S, f).0, ItemShape(S, f).1))
    ensures var o := Obj(8, 1, ItemShape(S, f).0, ItemShape(S, f).1);
            InitPtr(S, f, P, k, r) == Ready(Linked(P, k, e, f.tag0, NewObj(o)), Ref(|P|, o, 0))
  {
    hide WF, WFObj, Slot, Head, ValidShape, NewObj, PtrPos, RelPtr, ItemShape, Readable;
    ObjAt(P, k);
    SlotRead(P, k, e, f.tag0);
    SlotInside(P[k], e, f.tag0);
    SlotOfHandle(Head(P[k]), e, f.tag0);
  }

  lemma NewItems(S: Schema, f: FieldDesc, P: Pool, Q: Pool, k: nat, e: nat, o: Obj)
    requires SchemaOK(S) && FieldOK(S, f) && Grows(f) && WF(P) && WF(Q) && ValidShape(o)
    requires LinkedNew(P, Q, k, e, f.tag0, NewObj(o)) && o.nelem == 1 && HasShape(S, f, o)
    ensures k < |Q| && e < Head(Q[k]).nelem && PoolField(S, f, Q, k, e) == Items([Blank(S, f)])
  {
    hide WF, WFObj, Slot, Head, PoolScalar, Tidy, SchemaOK, PoolField, ValidShape, Blank, FieldOK, ViewList;
    hide ItemAt, Untouched;
    NewCells(o);
    FrameInside(P, Q, k, e);
    LinkedField(S, f, Q, k, e, |P|);
    ListItems(S, f, Q, |P|);
    ObjAt(Q, |P|);
    BlankItem(S, f, Q, |P|, 0);
    var items := ViewList(S, f, DecodePool(Q, |P|));
    assert items == [Blank(S, f)];
    assert items[..1] == items;
  }

  lemma FirstChild(S: Schema, f: FieldDesc, P: Pool, Q: Pool, k: nat, e: nat, o: Obj)
    requires WF(P) && WF(Q) && ValidShape(o) && LinkedNew(P, Q, k, e, f.tag0, NewObj(o))
    requires o.nelem == 1 && o.base == 8 && HasShape(S, f, o) && RefOK(f, o, 0, Ref(0, o, 0))
    ensures Child(S, f, Q, k, e, Ref(|P|, o, 0), 0)
    ensures WFObj(Q[|P|]) && Untouched(Q[|P|], 0)
  {
    hide WF, WFObj, Slot, Head, PoolScalar, Tidy, ValidShape, HasShape, Untouched, NewObj;
    NewCells(o);
    FrameInside(P, Q, k, e);
  }
}
