/** Growing a list, and changes below the last item of a field. */
module ParseItems {
  import opened Bytes
  import opened Wire
  import opened Pool
  import opened Decode
  import opened Cells
  import opened Forest
  import opened Schemas
  import opened Views
  import opened ValueParser
  import opened PoolParser
  import opened ParseSim
  import opened ParseSteps

  // ---------------------------------------------------------------- the other fields

  lemma FrameBelow(P0: Pool, P: Pool, Q: Pool, k: nat, e: nat, t: nat)
    requires WF(P0) && WF(P) && WF(Q) && Frame(P0, P, k, e) && |P0| <= t && |P| <= |Q|
    requires forall j :: 0 <= j < |P| && j != t ==> Q[j] == P[j]
    ensures Frame(P0, Q, k, e)
  {
    hide WF, PoolBit, PoolScalar, Slot, Head, WFObj;
  }

  /** Only object t, which field i leads to, has changed. */
  ghost predicate OnlyBelow(S: Schema, f: FieldDesc, P: Pool, Q: Pool, k: nat, e: nat, t: nat)
    requires WF(P) && WF(Q)
  {
    && k < |P| <= |Q| && e < Head(P[k]).nelem && f.tag0 < Head(P[k]).psize
    && Tidy(P) && Tidy(Q) && Grows(f) && Slot(P[k], e, f.tag0) == t != 0 && k < t < |P|
    && (forall j :: 0 <= j < |P| && j != t ==> Q[j] == P[j])
    && HasShape(S, f, Head(Q[t])) && (f.list || Head(Q[t]).nelem == 1)
  }

  /** Then the message is still open and the other fields are what they were. */
  lemma Siblings(S: Schema, mi: nat, P0: Pool, P: Pool, Q: Pool, k: nat, e: nat, r: Obj, i: nat, t: nat)
    requires Open(S, mi, P0, P, k, e, r) && i < |S.msgs[mi].fields| && WF(Q)
    requires OnlyBelow(S, S.msgs[mi].fields[i], P, Q, k, e, t)
    ensures Open(S, mi, P0, Q, k, e, r)
    ensures forall j :: 0 <= j < |S.msgs[mi].fields| && j != i ==>
              PoolField(S, S.msgs[mi].fields[j], Q, k, e) == PoolField(S, S.msgs[mi].fields[j], P, k, e)
  {
    hide WF, WFObj, Slot, Head, PoolScalar, Tidy, SchemaOK, PoolField, HasShape, Frame, ChildOK, Grows;
    FrameInside(P0, P, k, e);
    assert |P0| <= t by { OldChild(S, S.msgs[mi].fields[i], P, k, e, |P0|, t); }
    FrameBelow(P0, P, Q, k, e, t);
    forall j | 0 <= j < |S.msgs[mi].fields|
      ensures j != i ==> PoolField(S, S.msgs[mi].fields[j], Q, k, e) == PoolField(S, S.msgs[mi].fields[j], P, k, e)
      ensures ChildOK(S, S.msgs[mi].fields[j], Q, k, e, |P0|)
    {
      var g := S.msgs[mi].fields[j];
      if j != i {
        SiblingView(S, mi, P, Q, k, e, i, j, t);
        SiblingChild(S, mi, P, Q, k, e, i, j, t, |P0|);
      } else {
        SameChild(S, g, P, Q, k, e, t, |P0|);
      }
    }
  }

  lemma OldChild(S: Schema, f: FieldDesc, P: Pool, k: nat, e: nat, lo: nat, t: nat)
    requires k < |P| && ChildOK(S, f, P, k, e, lo) && Grows(f) && f.tag0 < Head(P[k]).psize
    requires Slot(P[k], e, f.tag0) == t != 0
    ensures lo <= t < |P| && HasShape(S, f, Head(P[t])) && (f.list || Head(P[t]).nelem == 1)
  {
  }

  lemma SameChild(S: Schema, f: FieldDesc, P: Pool, Q: Pool, k: nat, e: nat, t: nat, lo: nat)
    requires WF(P) && WF(Q) && OnlyBelow(S, f, P, Q, k, e, t) && ChildOK(S, f, P, k, e, lo)
    ensures ChildOK(S, f, Q, k, e, lo)
  {
    hide WF, WFObj, Slot, Head, PoolScalar, Tidy, HasShape;
    assert Q[k] == P[k];
  }

  lemma SiblingView(S: Schema, mi: nat, P: Pool, Q: Pool, k: nat, e: nat, i: nat, j: nat, t: nat)
    requires SchemaOK(S) && mi < |S.msgs| && i < |S.msgs[mi].fields| && j < |S.msgs[mi].fields| && i != j
    requires WF(P) && WF(Q) && OnlyBelow(S, S.msgs[mi].fields[i], P, Q, k, e, t)
    requires Head(P[k]).psize == S.msgs[mi].psize
    ensures e < Head(Q[k]).nelem
    ensures PoolField(S, S.msgs[mi].fields[j], Q, k, e) == PoolField(S, S.msgs[mi].fields[j], P, k, e)
  {
    hide WF, WFObj, Slot, Head, PoolScalar, Tidy, PoolField, ScalarVal, DecodeSlot, SchemaOK, HasShape;
    var f, g := S.msgs[mi].fields[i], S.msgs[mi].fields[j];
    assert Q[k] == P[k];
    FieldFacts(S, mi, j);
    PairFacts(S, mi, i, j);
    GrowsIsPtr(f);
    if IsPtr(g) {
      SiblingKept(P, Q, k, e, g.tag0, f.tag0, t);
      PtrFieldSame(S, g, P, Q, k, e);
    } else {
      ScalarField(S, g, P, k, e);
      ScalarField(S, g, Q, k, e);
    }
  }

  lemma SiblingChild(S: Schema, mi: nat, P: Pool, Q: Pool, k: nat, e: nat, i: nat, j: nat, t: nat, lo: nat)
    requires SchemaOK(S) && mi < |S.msgs| && i < |S.msgs[mi].fields| && j < |S.msgs[mi].fields| && i != j
    requires WF(P) && WF(Q) && OnlyBelow(S, S.msgs[mi].fields[i], P, Q, k, e, t)
    requires ChildOK(S, S.msgs[mi].fields[j], P, k, e, lo)
    ensures ChildOK(S, S.msgs[mi].fields[j], Q, k, e, lo)
  {
    hide WF, WFObj, Slot, Head, PoolScalar, Tidy, ScalarVal, DecodeSlot, SchemaOK, HasShape;
    var f, g := S.msgs[mi].fields[i], S.msgs[mi].fields[j];
    assert Q[k] == P[k];
    PairFacts(S, mi, i, j);
    if Grows(g) && g.tag0 < Head(P[k]).psize {
      var o, q := Owner(k, e, g.tag0), Owner(k, e, f.tag0);
      assert Target(P, o) == Slot(P[k], e, g.tag0) && Target(P, q) == t;
      if Target(P, o) == t {
        OneOwner(P, o, q);
      }
    }
  }

  // ---------------------------------------------------------------- growing

  /** The items of a field, from the items of its object. */
  lemma FieldItems(S: Schema, f: FieldDesc, P: Pool, k: nat, e: nat, t: nat)
    requires WF(P) && k < |P| && e < Head(P[k]).nelem && f.tag0 < Head(P[k]).psize && Grows(f)
    requires Slot(P[k], e, f.tag0) == t != 0
    ensures k < t < |P|
    ensures f.list || Head(P[t]).nelem == 1 ==>
              PoolField(S, f, P, k, e)
              == Items(seq(Head(P[t]).nelem, d requires 0 <= d < Head(P[t]).nelem => ItemAt(S, f, P, t, d)))
  {
    hide WF, WFObj, Slot, Head, PoolScalar, PoolField, ViewList, ItemAt;
    LinkedField(S, f, P, k, e, t);
    ListItems(S, f, P, t);
    var items := ViewList(S, f, DecodePool(P, t));
    var n := Head(P[t]).nelem;
    assert items == seq(n, d requires 0 <= d < n => ItemAt(S, f, P, t, d));
    if n == 1 {
      assert items[..1] == items;
    }
  }

  /** A list field with an object grows by one blank element. */
  lemma GrowStep(S: Schema, mi: nat, P0: Pool, P: Pool, k: nat, e: nat, r: Obj, i: nat, t: nat, n: nat, m: nat)
    returns (Q: Pool, ref: Ref)
    requires Open(S, mi, P0, P, k, e, r) && i < |S.msgs[mi].fields| && S.msgs[mi].fields[i].list
    requires Slot(P[k], e, S.msgs[mi].fields[i].tag0) == t != 0
    requires Room(P, n) && m < n
    ensures InitPtr(S, S.msgs[mi].fields[i], P, k, r) == Ready(Q, ref)
    ensures Open(S, mi, P0, Q, k, e, r) && Room(Q, m) && t < |P| && ref.k == t
    ensures Child(S, S.msgs[mi].fields[i], Q, k, e, ref, Head(P[t]).nelem)
    ensures WFObj(Q[t]) && Untouched(Q[t], Head(P[t]).nelem)
    ensures |Q| == |P| && forall j :: 0 <= j < |P| && j != t ==> Q[j] == P[j]
    ensures PoolMsg(S, mi, Q, k, e)
         == PoolMsg(S, mi, P, k, e)[i := Prepared(S, S.msgs[mi].fields[i], PoolMsg(S, mi, P, k, e)[i])]
  {
    hide WF, WFObj, Slot, Head, PoolScalar, Tidy, SchemaOK, PoolField, ChildOK, Frame, HasShape, RefOK, Untouched;
    hide Blank;
    hide InitPtr, Child, OnlyBelow;
    var f := S.msgs[mi].fields[i];
    FrameInside(P0, P, k, e);
    FieldFacts(S, mi, i);
    OldChild(S, f, P, k, e, |P0|, t);
    RoomSelf(P, t, n);
    Q, ref := GrowPool(S, f, P, k, e, r, t, n);
    Siblings(S, mi, P0, P, Q, k, e, r, i, t);
    FrameInside(P0, Q, k, e);
    GrownItems(S, f, P, Q, k, e, t);
    OneField(S, mi, P, Q, k, e, i, Prepared(S, f, PoolField(S, f, P, k, e)));
    RoomAfter(P, Q, t, n, m);
  }

  /** The pool after growing object t. */
  ghost predicate GrownAt(P: Pool, Q: Pool, t: nat)
    requires WF(P) && WF(Q)
  {
    && t < |P| == |Q| && Q == P[t := Q[t]] && WFObj(P[t]) && WFObj(Q[t])
    && var n := Head(P[t]).nelem;
       && Head(Q[t]) == Head(P[t]).(nelem := n + 1)
       && (forall d :: 0 <= d < n ==> SameElem(P[t], Q[t], d) && PoolBit(Q[t], d) == PoolBit(P[t], d))
       && Untouched(Q[t], n)
  }

  lemma GrowPool(S: Schema, f: FieldDesc, P: Pool, k: nat, e: nat, r: Obj, t: nat, n: nat) returns (Q: Pool, ref: Ref)
    requires WF(P) && Tidy(P) && f.list
    requires k < |P| && e < Head(P[k]).nelem && f.tag0 < Head(P[k]).psize && FieldOK(S, f)
    requires r == ElemHandle(Head(P[k]), e) && Slot(P[k], e, f.tag0) == t != 0
    requires t < |P| && HasShape(S, f, Head(P[t])) && Head(P[t]).nelem <= 0x4000_0000
    ensures InitPtr(S, f, P, k, r) == Ready(Q, ref) && ref.k == t
    ensures WF(Q) && GrownAt(P, Q, t) && OnlyBelow(S, f, P, Q, k, e, t)
    ensures Child(S, f, Q, k, e, ref, Head(P[t]).nelem)
  {
    hide WF, WFObj, Slot, Head, PoolScalar, Tidy, HasShape, Untouched, PoolBit, InitPtr, Grown, ValidShape, SameElem;
    hide SpareBitsZero, RefOK, FieldOK, ElemHandle;
    var h := Head(P[t]);
    ObjAt(P, t);
    TargetInside(P, Owner(k, e, f.tag0));
    ShapeGrows(P[t], h.nelem + 1);
    SpareAt(P, t);
    GrowCells(P[t], h.nelem + 1);
    GrowWF(P, t, h.nelem + 1);
    var c := Grown(P[t], h.nelem + 1);
    Q := P[t := c];
    GrownLinks(P[t], c, h.nelem);
    TidyReplace(P, t, c);
    InitGrow(S, f, P, k, e, r, t);
    ref := Ref(t, GetElem(Head(c), h.nelem), if f.kind == BOOL then h.nelem % 8 else 0);
    ShapeKept(S, f, h, h.nelem + 1);
    GrownRef(S, f, h, ref);
  }

  lemma ShapeKept(S: Schema, f: FieldDesc, h: Obj, n: nat)
    requires HasShape(S, f, h) && n > 0
    ensures HasShape(S, f, h.(nelem := n)) && h.nelem > 0
  {
  }

  lemma ShapeGrows(b: seq<byte>, n: nat)
    requires WFObj(b) && n + 7 < U32
    ensures ValidShape(Head(b).(nelem := n))
  {
  }

  lemma GrownLinks(b: seq<byte>, c: seq<byte>, n: nat)
    requires WFObj(b) && WFObj(c) && Head(b).nelem == n && Head(c) == Head(b).(nelem := n + 1)
    requires forall d :: 0 <= d < n ==> SameElem(b, c, d)
    requires Untouched(c, n)
    ensures forall d, i :: 0 <= d < Head(c).nelem && 0 <= i < Head(c).psize ==>
              Slot(c, d, i) == if d < n then Slot(b, d, i) else 0
  {
    hide WFObj, Slot, Head, PoolScalar, PoolBit;
    forall d, i | 0 <= d < Head(c).nelem && 0 <= i < Head(c).psize
      ensures Slot(c, d, i) == if d < n then Slot(b, d, i) else 0
    {
      if d < n {
        assert SameElem(b, c, d);
      }
    }
  }

  lemma GrownRef(S: Schema, f: FieldDesc, h: Obj, ref: Ref)
    requires h.base == 8 && h.nelem > 0 && HasShape(S, f, h) && FieldOK(S, f)
    requires ref.r == GetElem(h.(nelem := h.nelem + 1), h.nelem)
    requires ref.tag == if f.kind == BOOL then h.nelem % 8 else 0
    ensures RefOK(f, h.(nelem := h.nelem + 1), h.nelem, ref)
  {
  }

  lemma InitGrow(S: Schema, f: FieldDesc, P: Pool, k: nat, e: nat, r: Obj, t: nat)
    requires WF(P) && f.list && k < |P| && e < Head(P[k]).nelem && f.tag0 < Head(P[k]).psize
    requires r == ElemHandle(Head(P[k]), e) && Slot(P[k], e, f.tag0) == t != 0 && t < |P|
    requires WFObj(P[t]) && Head(P[t]).nelem <= 0x4000_0000
    ensures var n := Head(P[t]).nelem;
            |P[t]| >= 8 &&
            InitPtr(S, f, P, k, r)
            == Ready(P[t := Grown(P[t], n + 1)],
                     Ref(t, GetElem(Head(P[t]).(nelem := n + 1), n), if f.kind == BOOL then n % 8 else 0))
  {
    hide WF, Slot, Head, RelPtr, Readable, Grown, ObjInit, GetElem, PayloadSize, RoundUp;
    SlotRead(P, k, e, f.tag0);
    HeadIsInit(P[t]);
    SizeOfWF(P[t]);
  }

  lemma GrownItems(S: Schema, f: FieldDesc, P: Pool, Q: Pool, k: nat, e: nat, t: nat)
    requires SchemaOK(S) && FieldOK(S, f) && f.list && WF(P) && WF(Q)
    requires GrownAt(P, Q, t) && OnlyBelow(S, f, P, Q, k, e, t)
    requires HasShape(S, f, Head(P[t]))
    ensures e < Head(Q[k]).nelem
    ensures PoolField(S, f, Q, k, e) == Prepared(S, f, PoolField(S, f, P, k, e))
  {
    hide WF, WFObj, Slot, Head, PoolScalar, Tidy, SchemaOK, PoolField, HasShape, Untouched, Blank, ItemAt, PoolBit;
    hide SameElem, FieldOK;
    assert Q[k] == P[k];
    FieldItems(S, f, P, k, e, t);
    FieldItems(S, f, Q, k, e, t);
    var n := Head(P[t]).nelem;
    forall d | 0 <= d < n
      ensures ItemAt(S, f, Q, t, d) == ItemAt(S, f, P, t, d)
    {
      ItemKept(S, f, P, Q, t, d);
    }
    BlankItem(S, f, Q, t, n);
  }

  // ---------------------------------------------------------------- the last item

  /** Changing the last item of a field's object changes the last item of the field. */
  lemma ItemStep(S: Schema, mi: nat, P0: Pool, Q: Pool, R: Pool, k: nat, e: nat, r: Obj, i: nat, ref: Ref, n: nat)
    requires Open(S, mi, P0, Q, k, e, r) && i < |S.msgs[mi].fields| && Grows(S.msgs[mi].fields[i])
    requires Child(S, S.msgs[mi].fields[i], Q, k, e, ref, n)
    requires WF(R) && Tidy(R) && Frame(Q, R, ref.k, n)
    ensures Open(S, mi, P0, R, k, e, r) && ref.k < |R| && n < Head(R[ref.k]).nelem
    ensures |PoolMsg(S, mi, Q, k, e)[i].s| == n + 1
    ensures PoolMsg(S, mi, R, k, e)
         == PoolMsg(S, mi, Q, k, e)[i := Items(PoolMsg(S, mi, Q, k, e)[i].s[..n]
                                              + [ItemAt(S, S.msgs[mi].fields[i], R, ref.k, n)])]
  {
    hide WF, WFObj, Slot, Head, PoolScalar, Tidy, SchemaOK, PoolField, ChildOK, Frame, HasShape, RefOK, OnlyBelow;
    hide ItemAt;
    var f := S.msgs[mi].fields[i];
    var t := ref.k;
    FrameInside(P0, Q, k, e);
    FrameInside(Q, R, t, n);
    FieldFacts(S, mi, i);
    ItemBelow(S, f, Q, R, k, e, ref, n);
    Siblings(S, mi, P0, Q, R, k, e, r, i, t);
    FrameInside(P0, R, k, e);
    LastItem(S, f, Q, R, k, e, ref, n);
    OneField(S, mi, Q, R, k, e, i, Items(PoolField(S, f, Q, k, e).s[..n] + [ItemAt(S, f, R, t, n)]));
  }

  lemma ItemBelow(S: Schema, f: FieldDesc, Q: Pool, R: Pool, k: nat, e: nat, ref: Ref, n: nat)
    requires WF(Q) && Tidy(Q) && Grows(f) && Child(S, f, Q, k, e, ref, n)
    requires WF(R) && Tidy(R) && Frame(Q, R, ref.k, n)
    ensures OnlyBelow(S, f, Q, R, k, e, ref.k)
  {
    hide WF, WFObj, Slot, Head, PoolScalar, Tidy, HasShape, RefOK, PoolBit;
  }

  lemma LastItem(S: Schema, f: FieldDesc, Q: Pool, R: Pool, k: nat, e: nat, ref: Ref, n: nat)
    requires FieldOK(S, f) && Grows(f) && WF(Q) && Child(S, f, Q, k, e, ref, n)
    requires WF(R) && Frame(Q, R, ref.k, n)
    ensures k < |R| && e < Head(R[k]).nelem && ref.k < |R| && n < Head(R[ref.k]).nelem
    ensures |PoolField(S, f, Q, k, e).s| == n + 1
    ensures PoolField(S, f, R, k, e) == Items(PoolField(S, f, Q, k, e).s[..n] + [ItemAt(S, f, R, ref.k, n)])
  {
    hide WF, WFObj, Slot, Head, PoolScalar, HasShape, RefOK, PoolBit, SameElem, PoolField, ItemAt, FieldOK;
    var t := ref.k;
    assert R[k] == Q[k];
    FieldItems(S, f, Q, k, e, t);
    FieldItems(S, f, R, k, e, t);
    ObjAt(Q, t);
    ObjAt(R, t);
    forall d | 0 <= d < n
      ensures ItemAt(S, f, R, t, d) == ItemAt(S, f, Q, t, d)
    {
      assert SameElem(Q[t], R[t], d) && PoolBit(R[t], d) == PoolBit(Q[t], d);
      ItemKept(S, f, Q, R, t, d);
    }
    var olds := PoolField(S, f, Q, k, e).s;
    var news := PoolField(S, f, R, k, e).s;
    assert |olds| == n + 1 && |news| == n + 1;
    assert forall d :: 0 <= d < n ==> news[d] == ItemAt(S, f, R, t, d) == ItemAt(S, f, Q, t, d) == olds[d];
    assert news == olds[..n] + [news[n]];
  }
}
