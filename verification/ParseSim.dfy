/** The parser on the pool and the parser on values agree, for any input whatsoever: the message found in
    the pool is the one the value parser computes, the pool stays well-formed, and no assertion fails
    except for a string field whose value is not a string. */
module ParseSim {
  import opened Bytes
  import opened Wire
  import opened Pool
  import opened Decode
  import opened Cells
  import opened Forest
  import opened Schemas
  import opened Views
  import opened ValueParser
  import opened PoolParser
  import A = Access
  import Sim = Simulation

  // ---------------------------------------------------------------- fields of an element in the pool

  /** The items of field f of element e of object k. */
  function PoolField(S: Schema, f: FieldDesc, P: Pool, k: nat, e: nat): Items
    requires WF(P) && k < |P| && e < Head(P[k]).nelem
  {
    ViewField(S, f, DecodePoolElem(P, k, e))
  }

  function PoolMsg(S: Schema, mi: nat, P: Pool, k: nat, e: nat): (m: Msg)
    requires WF(P) && k < |P| && e < Head(P[k]).nelem && mi < |S.msgs|
    ensures |m| == |S.msgs[mi].fields|
    ensures forall i :: 0 <= i < |m| ==> m[i] == PoolField(S, S.msgs[mi].fields[i], P, k, e)
  {
    ViewMsg(S, mi, DecodePoolElem(P, k, e))
  }

  /** Two readings of a message that differ in one field only. */
  lemma OneField(S: Schema, mi: nat, P: Pool, Q: Pool, k: nat, e: nat, i: nat, items: Items)
    requires WF(P) && k < |P| && e < Head(P[k]).nelem && WF(Q) && k < |Q| && e < Head(Q[k]).nelem
    requires mi < |S.msgs| && i < |S.msgs[mi].fields|
    requires PoolField(S, S.msgs[mi].fields[i], Q, k, e) == items
    requires forall j :: 0 <= j < |S.msgs[mi].fields| && j != i ==>
               PoolField(S, S.msgs[mi].fields[j], Q, k, e) == PoolField(S, S.msgs[mi].fields[j], P, k, e)
    ensures PoolMsg(S, mi, Q, k, e) == PoolMsg(S, mi, P, k, e)[i := items]
  {
    hide WF, PoolField, Head;
  }

  lemma ElemParts(P: Pool, k: nat, e: nat)
    requires WF(P) && k < |P| && e < Head(P[k]).nelem
    ensures var el := DecodePoolElem(P, k, e);
            && WFObj(P[k]) && el.scalar == PoolScalar(P[k], e) && |el.kids| == Head(P[k]).psize
            && forall i :: 0 <= i < |el.kids| ==> el.kids[i] == DecodeSlot(P, k, e, i)
  {
    ObjAt(P, k);
  }

  /** A scalar field depends on the scalar part only. */
  lemma ScalarField(S: Schema, f: FieldDesc, P: Pool, k: nat, e: nat)
    requires WF(P) && k < |P| && e < Head(P[k]).nelem && !IsPtr(f)
    ensures WFObj(P[k]) && PoolField(S, f, P, k, e) == Items([ScalarVal(f, PoolScalar(P[k], e), f.tag0)])
  {
    hide WF, WFObj, PoolScalar, ScalarVal, Head;
    ElemParts(P, k, e);
  }

  /** A pointer field depends on the tree behind its slot only. */
  lemma PtrFieldSame(S: Schema, f: FieldDesc, P: Pool, Q: Pool, k: nat, e: nat)
    requires WF(P) && k < |P| && e < Head(P[k]).nelem && WF(Q) && k < |Q| && e < Head(Q[k]).nelem
    requires IsPtr(f) && f.tag0 < Head(P[k]).psize == Head(Q[k]).psize
    requires DecodeSlot(Q, k, e, f.tag0) == DecodeSlot(P, k, e, f.tag0)
    ensures PoolField(S, f, Q, k, e) == PoolField(S, f, P, k, e)
  {
    hide WF, WFObj, PoolScalar, ScalarVal, Head, DecodeSlot, ViewList, StrOf, DecodePoolElem;
    ElemParts(P, k, e);
    ElemParts(Q, k, e);
  }

  /** The items behind a slot that leads to object t. */
  lemma LinkedField(S: Schema, f: FieldDesc, P: Pool, k: nat, e: nat, t: nat)
    requires WF(P) && k < |P| && e < Head(P[k]).nelem && f.tag0 < Head(P[k]).psize
    requires Slot(P[k], e, f.tag0) == t != 0
    ensures k < t < |P|
    ensures Grows(f) ==>
              var items := ViewList(S, f, DecodePool(P, t));
              PoolField(S, f, P, k, e) == Items(if f.list || items == [] then items else items[..1])
    ensures !Grows(f) && f.kind == STR ==> PoolField(S, f, P, k, e) == Items([VStr(StrOf(DecodePool(P, t)))])
  {
    hide WFObj, PoolScalar, ScalarVal, Head, ViewList, StrOf, DecodePool;
    TargetInside(P, Owner(k, e, f.tag0));
    ElemParts(P, k, e);
  }

  lemma NullField(S: Schema, f: FieldDesc, P: Pool, k: nat, e: nat)
    requires WF(P) && k < |P| && e < Head(P[k]).nelem && f.tag0 < Head(P[k]).psize
    requires Slot(P[k], e, f.tag0) == 0 && IsPtr(f)
    ensures Grows(f) ==> PoolField(S, f, P, k, e) == Items([])
    ensures !Grows(f) ==> PoolField(S, f, P, k, e) == Items([VStr([])])
  {
    hide WF, WFObj, PoolScalar, ScalarVal, Head, DecodePoolElem, DecodeSlot;
    ElemParts(P, k, e);
    assert DecodeSlot(P, k, e, f.tag0) == Null by { NullSlot(P, k, e, f.tag0); }
    assert ViewList(S, f, Null) == [] && StrOf(Null) == [];
  }

  lemma NullSlot(P: Pool, k: nat, e: nat, i: nat)
    requires WF(P) && k < |P| && e < Head(P[k]).nelem && i < Head(P[k]).psize && Slot(P[k], e, i) == 0
    ensures DecodeSlot(P, k, e, i) == Null
  {
  }

  // ---------------------------------------------------------------- trees that stay

  lemma AvoidsOwned(P: Pool, o: Owner, x: nat)
    requires WF(P) && Tidy(P) && Target(P, o) != 0 && o.k < x
    ensures Avoids(P, x, Target(P, o))
  {
    hide WF, Tidy, Target;
    forall q: Owner | q.k >= x
      ensures Target(P, q) != Target(P, o)
    {
      if Target(P, q) == Target(P, o) {
        OneOwner(P, o, q);
      }
    }
  }

  lemma AvoidsNew(P: Pool, x: nat)
    requires WF(P) && |P| > 0
    ensures Avoids(P, x, |P|)
  {
    hide WF, Target;
    forall q: Owner | q.k >= x
      ensures Target(P, q) != |P|
    {
      if Target(P, q) != 0 {
        TargetInside(P, q);
      }
    }
  }

  /** A slot of object k keeps its tree if only object k and objects added later have changed. */
  lemma SlotKept(P: Pool, Q: Pool, k: nat, e: nat, i: nat)
    requires WF(P) && WF(Q) && k < |P| <= |Q| && Head(Q[k]).psize == Head(P[k]).psize
    requires e < Head(P[k]).nelem && e < Head(Q[k]).nelem && i < Head(P[k]).psize
    requires Slot(Q[k], e, i) == Slot(P[k], e, i)
    requires forall j :: 0 <= j < |P| && j != k ==> Q[j] == P[j]
    ensures DecodeSlot(Q, k, e, i) == DecodeSlot(P, k, e, i)
  {
    hide WF, WFObj, Slot, Head, DecodePool;
    var y := Slot(P[k], e, i);
    if y != 0 {
      var o := Owner(k, e, i);
      assert Target(P, o) == y;
      TargetInside(P, o);
      AvoidsNew(P, y);
      TreeAgrees(P, Q, y, |P|);
    }
  }

  /** A slot of element (k, e) keeps its tree if only the object behind another slot has changed. */
  lemma SiblingKept(P: Pool, Q: Pool, k: nat, e: nat, i: nat, other: nat, t: nat)
    requires WF(P) && Tidy(P) && WF(Q) && k < |P| <= |Q| && Q[k] == P[k]
    requires e < Head(P[k]).nelem && i < Head(P[k]).psize && other < Head(P[k]).psize && i != other
    requires Slot(P[k], e, other) == t != 0
    requires forall j :: 0 <= j < |P| && j != t ==> Q[j] == P[j]
    ensures DecodeSlot(Q, k, e, i) == DecodeSlot(P, k, e, i)
  {
    hide WF, WFObj, Slot, Head, DecodePool, Tidy;
    var y := Slot(P[k], e, i);
    if y != 0 {
      var o, q := Owner(k, e, other), Owner(k, e, i);
      assert Target(P, o) == t && Target(P, q) == y;
      TargetInside(P, q);
      if y == t {
        OneOwner(P, o, q);
      }
      AvoidsOwned(P, o, y);
      TreeAgrees(P, Q, y, t);
    }
  }

  // ---------------------------------------------------------------- scalars

  /** The number a literal stores. */
  function Number(v: Val): int {
    match v
    case VBool(b) => if b then 1 else 0
    case VInt(n) => n
    case _ => 0
  }

  /** A literal of a kind that the field takes. */
  predicate Suits(f: FieldDesc, v: Val) {
    match f.kind
    case BOOL => v.VBool?
    case STR => v.VStr?
    case PTR => false
    case _ => v.VInt?
  }

  lemma UnsignedBack(n: int, p: nat)
    requires p > 0
    ensures var u := n % p; (if 2 * u < p then u else u - p) % p == u
  {
    var u := n % p;
    if 2 * u < p {
      ModUnique(u, p, 0, u);
    } else {
      ModUnique(u - p, p, -1, u);
    }
  }

  predicate FitsIn(f: FieldDesc, sc: seq<byte>, tag: nat) {
    if ScalarWidth(f) == 0 then tag / 8 < |sc| else tag + ScalarWidth(f) <= |sc|
  }

  function WriteAlone(f: FieldDesc, sc: seq<byte>, tag: nat, v: Val): (r: seq<byte>)
    ensures |r| == |sc|
  {
    A.WriteField(sc, Alone(sc), ScalarWidth(f), tag, Number(v))
  }

  /** A stored literal reads back as the field keeps it. */
  lemma StoredScalar(S: Schema, f: FieldDesc, sc: seq<byte>, tag: nat, v: Val)
    requires FieldOK(S, f) && f.kind != STR && Suits(f, v) && FitsIn(f, sc, tag)
    ensures ScalarVal(f, WriteAlone(f, sc, tag, v), tag) == Narrow(f, v)
  {
    hide GetInt, PutInt, GetBit, PutBit, Pow256, Signed;
    Pow256Values();
    if f.kind == BOOL {
      A.BitRoundTrip(sc, Alone(sc), tag, v.b, tag);
    } else {
      A.IntRoundTrip(sc, Alone(sc), tag, ScalarWidth(f), v.v);
      SignedMod(v.v, ScalarWidth(f));
    }
  }

  lemma SignedMod(n: int, sz: nat)
    ensures Signed(n % Pow256(sz), sz) % Pow256(sz) == n % Pow256(sz)
  {
    UnsignedBack(n, Pow256(sz));
  }

  /** Storing one field leaves the others. */
  lemma OtherScalar(S: Schema, f: FieldDesc, g: FieldDesc, sc: seq<byte>, v: Val)
    requires FieldOK(S, f) && FieldOK(S, g) && !IsPtr(f) && !IsPtr(g) && Apart(BitSlot(f), BitSlot(g))
    requires FitsIn(f, sc, f.tag0) && FitsIn(g, sc, g.tag0)
    ensures ScalarVal(g, WriteAlone(f, sc, f.tag0, v), g.tag0) == ScalarVal(g, sc, g.tag0)
  {
    hide A.WriteField, GetInt, GetBit;
    var o := Alone(sc);
    var r := WriteAlone(f, sc, f.tag0, v);
    A.WriteTouches(sc, o, ScalarWidth(f), f.tag0, Number(v));
    if ScalarWidth(g) != 0 {
      A.IntUntouched(sc, r, o, g.tag0, ScalarWidth(g));
    } else if ScalarWidth(f) == 0 {
      A.BitsApart(sc, o, f.tag0, Number(v) != 0, g.tag0);
    } else {
      A.BitUntouched(sc, r, o, g.tag0);
    }
  }

  lemma InsideFits(d: MsgDesc, f: FieldDesc, sc: seq<byte>)
    requires Inside(d, f) && !IsPtr(f) && |sc| == d.ssize
    ensures FitsIn(f, sc, f.tag0)
  {
  }

  // ---------------------------------------------------------------- the state of an open message

  /** The object behind a list or message field has the sizes of the field, and was created after the
      message was opened. */
  ghost predicate ChildOK(S: Schema, f: FieldDesc, P: Pool, k: nat, e: nat, lo: nat)
    requires k < |P|
  {
    Grows(f) && f.tag0 < Head(P[k]).psize ==>
      var t := Slot(P[k], e, f.tag0);
      t != 0 ==> lo <= t < |P| && HasShape(S, f, Head(P[t])) && (f.list || Head(P[t]).nelem == 1)
  }

  predicate HasShape(S: Schema, f: FieldDesc, h: Obj) {
    h.ssize == ItemShape(S, f).0 && h.psize == ItemShape(S, f).1 && h.nelem > 0
  }

  /** Element e of object k is being filled.  The pool was P0 when this began. */
  ghost predicate Open(S: Schema, mi: nat, P0: Pool, P: Pool, k: nat, e: nat, r: Obj) {
    && SchemaOK(S) && mi < |S.msgs|
    && WF(P0) && WF(P) && Tidy(P) && Frame(P0, P, k, e)
    && Head(P[k]).ssize == S.msgs[mi].ssize && Head(P[k]).psize == S.msgs[mi].psize
    && (ElemSize(Head(P[k])) != 0 ==> r == ElemHandle(Head(P[k]), e))
    && (forall i :: 0 <= i < |S.msgs[mi].fields| ==> ChildOK(S, S.msgs[mi].fields[i], P, k, e, |P0|))
  }

  /** Enough ids and element counts are left for n more bytes of input. */
  ghost predicate Room(P: Pool, n: nat) {
    && |P| + 2 * n < 0x7FFF_FFF0
    && n <= 0x4000_0000
    && (forall k :: 0 <= k < |P| ==> Head(P[k]).nelem + n <= 0x4000_0000)
  }

  lemma FieldFacts(S: Schema, mi: nat, i: nat)
    requires SchemaOK(S) && mi < |S.msgs| && i < |S.msgs[mi].fields|
    ensures var d := S.msgs[mi];
            && LaidOut(d) && Inside(d, d.fields[i]) && FieldOK(S, d.fields[i])
            && d.ssize + 4 * d.psize != 0
  {
    assert MsgOK(S, S.msgs[mi]);
  }

  lemma PairFacts(S: Schema, mi: nat, i: nat, j: nat)
    requires SchemaOK(S) && mi < |S.msgs| && i < |S.msgs[mi].fields| && j < |S.msgs[mi].fields| && i != j
    ensures var f, g := S.msgs[mi].fields[i], S.msgs[mi].fields[j];
            && (IsPtr(f) && IsPtr(g) ==> f.tag0 != g.tag0)
            && (!IsPtr(f) && !IsPtr(g) ==> Apart(BitSlot(f), BitSlot(g)))
  {
    assert MsgOK(S, S.msgs[mi]);
    var fields := S.msgs[mi].fields;
    if i < j {
      assert IsPtr(fields[i]) && IsPtr(fields[j]) ==> fields[i].tag0 != fields[j].tag0;
    } else {
      assert IsPtr(fields[j]) && IsPtr(fields[i]) ==> fields[j].tag0 != fields[i].tag0;
    }
  }

  /** The effect of storing a scalar in a field of its own. */
  lemma PutScalar(S: Schema, mi: nat, P0: Pool, P: Pool, k: nat, e: nat, r: Obj, i: nat, v: Val) returns (Q: Pool)
    requires Open(S, mi, P0, P, k, e, r) && i < |S.msgs[mi].fields|
    requires !IsPtr(S.msgs[mi].fields[i]) && Suits(S.msgs[mi].fields[i], v)
    ensures PutLiteral(S.msgs[mi].fields[i], P, Ref(k, r, S.msgs[mi].fields[i].tag0), v) == Stored(Q)
    ensures WF(Q) && |Q| == |P| && Q == P[k := Q[k]] && Head(Q[k]) == Head(P[k]) && Tidy(Q)
    ensures WFObj(P[k]) && WFObj(Q[k])
    ensures PoolScalar(Q[k], e) == WriteAlone(S.msgs[mi].fields[i], PoolScalar(P[k], e), S.msgs[mi].fields[i].tag0, v)
    ensures forall d :: 0 <= d < Head(P[k]).nelem && d != e ==> PoolScalar(Q[k], d) == PoolScalar(P[k], d)
    ensures forall d, i :: 0 <= d < Head(P[k]).nelem && 0 <= i < Head(P[k]).psize ==>
              Slot(Q[k], d, i) == Slot(P[k], d, i)
  {
    hide WF, WFObj, Slot, Head, PoolScalar, Tidy, PutInt, PutBit, Readable, SchemaOK, SpareBitsZero, ItemShape;
    var f := S.msgs[mi].fields[i];
    FieldFacts(S, mi, i);
    FieldCells(P, k, e, ScalarWidth(f), f.tag0, Number(v));
    Q := P[k := A.WriteField(P[k], r, ScalarWidth(f), f.tag0, Number(v))];
    ObjAt(P, k);
    ObjAt(Q, k);
    NotBits(Q[k]);
    TidyReplace(P, k, Q[k]);
  }

  lemma NotBits(b: seq<byte>)
    requires WFObj(b) && ElemSize(Head(b)) != 0
    ensures SpareBitsZero(b)
  {
  }

  /** Element e of object k has changed in its scalar part only. */
  ghost predicate ScalarsOnly(P: Pool, Q: Pool, k: nat, e: nat)
    requires WF(P) && WF(Q)
  {
    && k < |P| == |Q| && Q == P[k := Q[k]] && Head(Q[k]) == Head(P[k]) && e < Head(P[k]).nelem
    && ElemSize(Head(P[k])) != 0
    && (forall d :: 0 <= d < Head(P[k]).nelem && d != e ==> PoolScalar(Q[k], d) == PoolScalar(P[k], d))
    && (forall d, i :: 0 <= d < Head(P[k]).nelem && 0 <= i < Head(P[k]).psize ==>
          Slot(Q[k], d, i) == Slot(P[k], d, i))
  }

  lemma ScalarFrame(P: Pool, Q: Pool, k: nat, e: nat)
    requires WF(P) && WF(Q) && ScalarsOnly(P, Q, k, e)
    ensures Frame(P, Q, k, e)
  {
    hide WF, WFObj, Head, Slot, PoolScalar;
    ObjAt(P, k);
    ObjAt(Q, k);
  }

  lemma ScalarChildren(S: Schema, f: FieldDesc, P: Pool, Q: Pool, k: nat, e: nat, lo: nat)
    requires WF(P) && WF(Q) && ScalarsOnly(P, Q, k, e) && ChildOK(S, f, P, k, e, lo)
    ensures ChildOK(S, f, Q, k, e, lo)
  {
    hide WF, WFObj, Head, Slot, PoolScalar, HasShape;
    if Grows(f) && f.tag0 < Head(P[k]).psize {
      var o := Owner(k, e, f.tag0);
      assert Target(P, o) == Slot(P[k], e, f.tag0);
      if Target(P, o) != 0 {
        TargetInside(P, o);
      }
    }
  }

  /** Storing a scalar changes its own field and nothing else. */
  lemma ScalarStep(S: Schema, mi: nat, P0: Pool, P: Pool, k: nat, e: nat, r: Obj, i: nat, v: Val) returns (Q: Pool)
    requires Open(S, mi, P0, P, k, e, r) && i < |S.msgs[mi].fields|
    requires !IsPtr(S.msgs[mi].fields[i]) && Suits(S.msgs[mi].fields[i], v)
    ensures PutLiteral(S.msgs[mi].fields[i], P, Ref(k, r, S.msgs[mi].fields[i].tag0), v) == Stored(Q)
    ensures Open(S, mi, P0, Q, k, e, r)
    ensures PoolMsg(S, mi, Q, k, e) == PoolMsg(S, mi, P, k, e)[i := Items([Narrow(S.msgs[mi].fields[i], v)])]
    ensures forall n :: Room(P, n) ==> Room(Q, n)
  {
    hide WF, WFObj, Slot, Head, PoolScalar, Tidy, PutLiteral, SchemaOK, ChildOK, PoolField, WriteAlone, Suits, Frame;
    hide IsPtr, Narrow;
    var f := S.msgs[mi].fields[i];
    FrameInside(P0, P, k, e);
    Q := PutScalar(S, mi, P0, P, k, e, r, i, v);
    FieldFacts(S, mi, i);
    assert ScalarsOnly(P, Q, k, e);
    ScalarFrame(P, Q, k, e);
    FrameTrans(P0, P, Q, k, e);
    forall j | 0 <= j < |S.msgs[mi].fields|
      ensures ChildOK(S, S.msgs[mi].fields[j], Q, k, e, |P0|)
    {
      ScalarChildren(S, S.msgs[mi].fields[j], P, Q, k, e, |P0|);
    }
    forall j | 0 <= j < |S.msgs[mi].fields|
      ensures j != i ==> PoolField(S, S.msgs[mi].fields[j], Q, k, e) == PoolField(S, S.msgs[mi].fields[j], P, k, e)
      ensures j == i ==> PoolField(S, f, Q, k, e) == Items([Narrow(f, v)])
    {
      ScalarViews(S, mi, P, Q, k, e, i, v, j);
    }
    OneField(S, mi, P, Q, k, e, i, Items([Narrow(f, v)]));
  }

  lemma FrameInside(P: Pool, Q: Pool, k: nat, e: nat)
    requires WF(P) && WF(Q) && Frame(P, Q, k, e)
    ensures k < |P| <= |Q| && Head(Q[k]) == Head(P[k]) && e < Head(Q[k]).nelem
  {
  }

  lemma ScalarViews(S: Schema, mi: nat, P: Pool, Q: Pool, k: nat, e: nat, i: nat, v: Val, j: nat)
    requires SchemaOK(S) && mi < |S.msgs| && i < |S.msgs[mi].fields| && j < |S.msgs[mi].fields|
    requires WF(P) && WF(Q) && ScalarsOnly(P, Q, k, e)
    requires Head(P[k]).ssize == S.msgs[mi].ssize && Head(P[k]).psize == S.msgs[mi].psize
    requires var f := S.msgs[mi].fields[i];
             !IsPtr(f) && Suits(f, v) && WFObj(P[k]) && WFObj(Q[k])
             && PoolScalar(Q[k], e) == WriteAlone(f, PoolScalar(P[k], e), f.tag0, v)
    ensures var f, g := S.msgs[mi].fields[i], S.msgs[mi].fields[j];
            && (j != i ==> PoolField(S, g, Q, k, e) == PoolField(S, g, P, k, e))
            && (j == i ==> PoolField(S, f, Q, k, e) == Items([Narrow(f, v)]))
  {
    hide WF, WFObj, Slot, Head, PoolScalar, SchemaOK, PoolField, WriteAlone, Suits, ScalarVal, FieldOK, Inside;
    var f, g := S.msgs[mi].fields[i], S.msgs[mi].fields[j];
    FieldFacts(S, mi, i);
    FieldFacts(S, mi, j);
    var sc := PoolScalar(P[k], e);
    InsideFits(S.msgs[mi], f, sc);
    if IsPtr(g) {
      PtrTag(S.msgs[mi], g);
      SlotKept(P, Q, k, e, g.tag0);
      PtrFieldSame(S, g, P, Q, k, e);
    } else {
      InsideFits(S.msgs[mi], g, sc);
      ScalarField(S, g, P, k, e);
      ScalarField(S, g, Q, k, e);
      if j == i {
        StoredScalar(S, f, sc, f.tag0, v);
      } else {
        PairFacts(S, mi, i, j);
        OtherScalar(S, f, g, sc, v);
      }
    }
  }

  lemma PtrTag(d: MsgDesc, g: FieldDesc)
    requires Inside(d, g) && IsPtr(g)
    ensures g.tag0 < d.psize
  {
  }

  // ---------------------------------------------------------------- linking new objects

  /** What is known once a new object b was linked from slot i of element e of object k. */
  ghost predicate LinkedNew(P: Pool, Q: Pool, k: nat, e: nat, i: nat, b: seq<byte>)
    requires WF(P) && WF(Q)
  {
    && Tidy(Q) && Frame(P, Q, k, e) && |Q| == |P| + 1 && Q[|P|] == b
    && i < Head(P[k]).psize && Slot(Q[k], e, i) == |P|
    && PoolScalar(Q[k], e) == PoolScalar(P[k], e)
    && (forall j :: 0 <= j < Head(P[k]).psize && j != i ==>
          Slot(Q[k], e, j) == Slot(P[k], e, j) && DecodeSlot(Q, k, e, j) == DecodeSlot(P, k, e, j))
  }

  lemma LinkNew(P: Pool, k: nat, e: nat, i: nat, b: seq<byte>)
    requires WF(P) && Tidy(P) && k < |P| && e < Head(P[k]).nelem && i < Head(P[k]).psize
    requires WFObj(b) && NoLinks(b) && SpareBitsZero(b) && |P| + 1 < 0x8000_0000
    ensures WF(Linked(P, k, e, i, b)) && LinkedNew(P, Linked(P, k, e, i, b), k, e, i, b)
  {
    hide WF, WFObj, Slot, Head, PoolScalar, Tidy, SpareBitsZero, NoLinks, Linked, DecodeSlot;
    LinkCells(P, k, e, i, b);
    TidyLink(P, k, e, i, b);
    var Q := Linked(P, k, e, i, b);
    ObjAt(P, k);
    ObjAt(Q, k);
    forall j | 0 <= j < Head(P[k]).psize && j != i
      ensures Slot(Q[k], e, j) == Slot(P[k], e, j) && DecodeSlot(Q, k, e, j) == DecodeSlot(P, k, e, j)
    {
      SlotKept(P, Q, k, e, j);
    }
    LinkFrame(P, Q, k, e);
  }

  lemma LinkFrame(P: Pool, Q: Pool, k: nat, e: nat)
    requires WF(P) && WF(Q) && k < |P| <= |Q| && Head(Q[k]) == Head(P[k]) && e < Head(P[k]).nelem
    requires forall j :: 0 <= j < |P| && j != k ==> Q[j] == P[j]
    requires forall d :: 0 <= d < Head(P[k]).nelem ==> PoolScalar(Q[k], d) == PoolScalar(P[k], d)
    requires forall d, j :: 0 <= d < Head(P[k]).nelem && d != e && 0 <= j < Head(P[k]).psize ==>
               Slot(Q[k], d, j) == Slot(P[k], d, j)
    requires ElemSize(Head(P[k])) != 0
    ensures Frame(P, Q, k, e)
  {
    hide WF, WFObj, Slot, Head, PoolScalar;
    ObjAt(P, k);
    ObjAt(Q, k);
  }

  /** The object of a string. */
  function StrObj(s: seq<byte>): seq<byte>
    requires |s| + 1 < U32
  {
    Sim.StrFits(s);
    Splice(NewObj(Sim.StrShape(s)), 8, s)
  }

  lemma StrObjOK(s: seq<byte>)
    requires |s| + 1 < U32
    ensures var b := StrObj(s);
            && WFObj(b) && Head(b) == Sim.StrShape(s) && NoLinks(b) && SpareBitsZero(b)
            && 8 + |s| <= |b| && b[8..8 + |s|] == s
  {
    hide WFObj, Head, NewObj, ValidShape, PayloadSize, Slot;
    var o := Sim.StrShape(s);
    Sim.StrFits(s);
    NewObjWF(o);
    SizeOfBase(o, 8);
    SpliceWFObj(NewObj(o), 8, s);
    var b := StrObj(s);
    NotBits(b);
  }

  /** A string object reads as its string. */
  lemma StrReads(Q: Pool, t: nat, s: seq<byte>)
    requires WF(Q) && t < |Q| && |s| + 1 < U32 && Q[t] == StrObj(s)
    ensures StrOf(DecodePool(Q, t)) == s
  {
    hide WF, WFObj, Head, DecodePoolElem, StrObj, PayloadSize;
    StrObjOK(s);
    Sim.StrFits(s);
    ObjExtent(Q[t]);
    var raw := PoolRaw(Q[t]);
    assert raw == Q[t][8..8 + |s| + 1];
    assert raw[..|s|] == Q[t][8..8 + |s|];
  }

  /** Storing a string through a handle of element e. */
  lemma PutString(P: Pool, k: nat, e: nat, r: Obj, i: nat, s: seq<byte>) returns (Q: Pool)
    requires WF(P) && Tidy(P) && k < |P| && e < Head(P[k]).nelem && i < Head(P[k]).psize
    requires r == ElemHandle(Head(P[k]), e) && |s| + 1 < U32 && |P| + 1 < 0x8000_0000
    ensures PutStr(P, k, r, i, s) == Stored(Q) && Readable(P[k], r)
    ensures WF(Q) && LinkedNew(P, Q, k, e, i, StrObj(s))
    ensures DecodeSlot(Q, k, e, i).Node? && StrOf(DecodeSlot(Q, k, e, i)) == s
  {
    hide WF, WFObj, Head, PoolScalar, Slot, PtrPos, DecodePool, NoLinks, SpareBitsZero, LE, Tidy;
    StrObjOK(s);
    LinkNew(P, k, e, i, StrObj(s));
    Q := Linked(P, k, e, i, StrObj(s));
    ObjAt(P, k);
    SlotInside(P[k], e, i);
    SlotOfHandle(Head(P[k]), e, i);
    ReadableElem(P[k], e);
    StrReads(Q, |P|, s);
    IsNode(Q, |P|);
  }

  lemma IsNode(Q: Pool, t: nat)
    requires WF(Q) && t < |Q|
    ensures DecodePool(Q, t).Node?
  {
  }
}
