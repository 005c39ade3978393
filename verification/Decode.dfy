/** What a message means: the tree a reader sees by following every pointer, in the builder's pool
    and in the flat buffer.  Serialization keeps that tree. */
module Decode {
  import opened Bytes
  import opened Wire
  import opened Pool

  /** A decoded object.  `Null` is a null pointer; `Cut` marks a read that ran out of depth. */
  datatype Tree =
    | Null
    | Cut
    | Node(nelem: nat, ssize: nat, psize: nat, raw: seq<byte>, elems: seq<Elem>)

  datatype Elem = Elem(scalar: seq<byte>, kids: seq<Tree>)

  /** Element e of an object whose elements are not bits. */
  function ElemHandle(o: Obj, e: nat): Obj {
    var h, d := o, e;
    Obj(h.base + d * ElemSize(h), 1, h.ssize, h.psize)
  }

  /** What header validation guarantees about a handle. */
  predicate Accepted(len: nat, o: Obj) {
    o.nelem > 0 ==> o.base + PayloadSize(o) <= len && (ElemSize(o) == 0 ==> o.nelem + 7 < U32)
  }

  lemma ElemReadable(len: nat, o: Obj, e: nat)
    requires Accepted(len, o) && e < o.nelem
    ensures ElemHandle(o, e).base + ElemSize(o) <= len
    ensures ElemSize(ElemHandle(o, e)) == ElemSize(o)
  {
    if ElemSize(o) != 0 {
      assert (e + 1) * ElemSize(o) == e * ElemSize(o) + ElemSize(o);
      MulMono(e + 1, o.nelem, ElemSize(o));
    }
  }

  lemma InitAccepted(buf: seq<byte>, base: nat)
    ensures Accepted(|buf|, ObjInit(buf, base))
  {
    var o := ObjInit(buf, base);
    if o.nelem > 0 && ElemSize(o) == 0 {
      BitListExtent(o);
    }
  }

  lemma PtrAccepted(buf: seq<byte>, o: Obj, i: nat)
    requires Readable(buf, o)
    ensures Accepted(|buf|, GetPtr(buf, o, i))
  {
    hide Accepted, ObjInit, RelPtr;
    InitAccepted(buf, (RelPtr(buf, o, i) * 4 + o.base + PtrOffs(o, i)) % U64);
    assert Accepted(|buf|, NULL) by { NullAccepted(|buf|); }
  }

  lemma NullAccepted(len: nat)
    ensures Accepted(len, NULL)
  {
  }

  function PayloadRaw(buf: seq<byte>, o: Obj): seq<byte>
    requires Accepted(|buf|, o)
  {
    if o.nelem > 0 && o.psize == 0 then buf[o.base..o.base + PayloadSize(o)] else []
  }

  /** Reads the whole tree below a handle, down to the given depth, with the flat reader. */
  function DecodeFlat(buf: seq<byte>, o: Obj, depth: nat): Tree
    requires Accepted(|buf|, o)
    decreases depth, 1
  {
    if o == NULL then Null
    else if depth == 0 then Cut
    else
      Node(o.nelem, o.ssize, o.psize, PayloadRaw(buf, o),
           seq(o.nelem, e requires 0 <= e < o.nelem => DecodeFlatElem(buf, o, e, depth)))
  }

  function DecodeFlatElem(buf: seq<byte>, o: Obj, e: nat, depth: nat): Elem
    requires Accepted(|buf|, o) && e < o.nelem && depth > 0
    decreases depth, 0
  {
    ElemReadable(|buf|, o, e);
    var r := ElemHandle(o, e);
    Elem(buf[r.base..r.base + r.ssize],
         seq(o.psize, i requires 0 <= i < o.psize =>
           PtrAccepted(buf, r, i);
           DecodeFlat(buf, GetPtr(buf, r, i), depth - 1)))
  }

  lemma SlotOfHandle(h: Obj, e: nat, i: nat)
    requires h.base == 8
    ensures ElemHandle(h, e).base + PtrOffs(ElemHandle(h, e), i) == PtrPos(h, e, i)
  {
  }

  lemma ReadableElem(b: seq<byte>, e: nat)
    requires WFObj(b) && e < Head(b).nelem
    ensures Readable(b, ElemHandle(Head(b), e))
  {
    ScalarInside(b, e);
  }

  /** A pointer word holds the id of its slot, and ids are small. */
  lemma SlotRead(P: Pool, k: nat, e: nat, i: nat)
    requires WF(P) && k < |P| && e < Head(P[k]).nelem && i < Head(P[k]).psize
    ensures Readable(P[k], ElemHandle(Head(P[k]), e))
    ensures RelPtr(P[k], ElemHandle(Head(P[k]), e), i) == Slot(P[k], e, i)
    ensures Slot(P[k], e, i) == 0 || k < Slot(P[k], e, i) < |P| < 0x8000_0000
  {
    hide WFObj, Head, PtrPos;
    ObjAt(P, k);
    ReadableElem(P[k], e);
    SlotOfHandle(Head(P[k]), e, i);
    SlotInside(P[k], e, i);
    assert SlotsOK(P, k);
    Pow256Values();
  }

  /** Reads the whole tree below object k of the pool, following ids. */
  function DecodePool(P: Pool, k: nat): Tree
    requires WF(P) && k < |P|
    decreases |P| - k, 1
  {
    var h := Head(P[k]);
    Node(h.nelem, h.ssize, h.psize, PoolRaw(P[k]),
         seq(h.nelem, e requires 0 <= e < h.nelem => DecodePoolElem(P, k, e)))
  }

  function PoolRaw(b: seq<byte>): seq<byte>
    requires WFObj(b)
  {
    ObjExtent(b);
    if Head(b).nelem > 0 && Head(b).psize == 0 then b[8..8 + PayloadSize(Head(b))] else []
  }

  function DecodePoolElem(P: Pool, k: nat, e: nat): Elem
    requires WF(P) && k < |P| && e < Head(P[k]).nelem
    decreases |P| - k, 0
  {
    Elem(PoolScalar(P[k], e),
         seq(Head(P[k]).psize, i requires 0 <= i < Head(P[k]).psize => DecodeSlot(P, k, e, i)))
  }

  lemma ScalarInside(b: seq<byte>, e: nat)
    requires WFObj(b) && e < Head(b).nelem
    ensures Pos(Head(b), e, 0) + ElemSize(Head(b)) <= |b|
    ensures Pos(Head(b), e, 0) + ElemSize(Head(b)) <= 8 + PayloadSize(Head(b))
  {
    ObjExtent(b);
    if ElemSize(Head(b)) != 0 {
      PosInside(Head(b), e, 0);
    }
  }

  function PoolScalar(b: seq<byte>, e: nat): (s: seq<byte>)
    requires WFObj(b) && e < Head(b).nelem
    ensures |s| == Head(b).ssize
  {
    ScalarInside(b, e);
    b[Pos(Head(b), e, 0)..Pos(Head(b), e, 0) + Head(b).ssize]
  }

  function DecodeSlot(P: Pool, k: nat, e: nat, i: nat): Tree
    requires WF(P) && k < |P| && e < Head(P[k]).nelem && i < Head(P[k]).psize
    decreases |P| - k, 0, 0
  {
    assert SlotsOK(P, k);
    if Slot(P[k], e, i) == 0 then Null else DecodePool(P, Slot(P[k], e, i))
  }

  // ---------------------------------------------------------------- the flat buffer, object by object

  /** Serialized sizes stay below the range of 32-bit word offsets with a sign. */
  predicate Fits(P: Pool) {
    Off(P, |P|) < 0x2_0000_0000
  }

  lemma SerSlice(P: Pool, k: nat, a: nat, b: nat)
    requires k < |P| && a <= b <= |P[k]|
    ensures Off(P, k) + b <= |Ser(P)|
    ensures Ser(P)[Off(P, k) + a..Off(P, k) + b] == SerObj(P, k)[a..b]
  {
    hide Ser, SerObj, Off;
    SerAt(P, k);
    SliceOfSlice(Ser(P), Off(P, k), |P[k]|, a, b);
  }

  lemma SliceOfSlice(s: seq<byte>, o: nat, n: nat, a: nat, b: nat)
    requires a <= b <= n && o + n <= |s|
    ensures s[o..o + n][a..b] == s[o + a..o + b]
  {
    var t, u := s[o..o + n][a..b], s[o + a..o + b];
    assert |t| == |u| && forall x :: 0 <= x < |u| ==> t[x] == u[x];
  }

  lemma SerObjCopies(P: Pool, k: nat, a: nat, b: nat)
    requires k < |P| && a <= b <= |P[k]|
    requires forall x :: a <= x < b ==> !InPtr(Head(P[k]), x)
    ensures SerObj(P, k)[a..b] == P[k][a..b]
  {
    hide InPtr, Head;
  }

  /** Bytes outside pointer words are copied. */
  lemma SerCopies(P: Pool, k: nat, a: nat, b: nat)
    requires k < |P| && a <= b <= |P[k]|
    requires forall x :: a <= x < b ==> !InPtr(Head(P[k]), x)
    ensures Off(P, k) + b <= |Ser(P)|
    ensures Ser(P)[Off(P, k) + a..Off(P, k) + b] == P[k][a..b]
  {
    hide Ser, Off, InPtr, Head;
    SerSlice(P, k, a, b);
    SerObjCopies(P, k, a, b);
  }

  /** The header of object k, read from the flat buffer and validated. */
  lemma SerHead(P: Pool, k: nat)
    requires WF(P) && k < |P|
    ensures Off(P, k) + |P[k]| <= |Ser(P)|
    ensures ObjInit(Ser(P), Off(P, k)) == Head(P[k]).(base := Off(P, k) + 8)
  {
    hide WF, WFObj, Head, Off, Ser, SerObj;
    var b := P[k];
    ObjAt(P, k);
    SerSlice(P, k, 0, |b|);
    HeadNoPtr(Head(b));
    SerCopies(P, k, 0, 8);
    HeadOfCopy(Ser(P), Off(P, k), b);
  }

  lemma HeadNoPtr(h: Obj)
    ensures forall x :: 0 <= x < 8 ==> !InPtr(h, x)
  {
  }

  /** The header of an object that was copied as a whole. */
  lemma HeadOfCopy(S: seq<byte>, o: nat, b: seq<byte>)
    requires WFObj(b) && o + |b| <= |S| && S[o..o + 8] == b[0..8]
    ensures ObjInit(S, o) == Head(b).(base := o + 8)
  {
    ObjExtent(b);
    assert HeaderAt(S, o) == Head(b).(base := o + 8);
    SizeOfBase(Head(b), o + 8);
    hide PayloadSize, Head, HeaderAt;
  }

  lemma SerScalar(P: Pool, k: nat, e: nat)
    requires WF(P) && k < |P| && e < Head(P[k]).nelem
    ensures var p := Off(P, k) + Pos(Head(P[k]), e, 0);
            p + Head(P[k]).ssize <= |Ser(P)|
            && Ser(P)[p..p + Head(P[k]).ssize] == PoolScalar(P[k], e)
  {
    hide Off, Ser, Head, InPtr;
    var h := Head(P[k]);
    var p := Pos(h, e, 0);
    assert WFObj(P[k]);
    ScalarInside(P[k], e);
    ScalarRange(h, e);
    hide Pos, WF, WFObj;
    SerCopies(P, k, p, p + h.ssize);
  }

  lemma SerRaw(P: Pool, k: nat)
    requires WF(P) && k < |P| && Head(P[k]).nelem > 0 && Head(P[k]).psize == 0
    ensures var p := Off(P, k) + 8;
            p + PayloadSize(Head(P[k])) <= |Ser(P)|
            && Ser(P)[p..p + PayloadSize(Head(P[k]))] == PoolRaw(P[k])
  {
    assert WFObj(P[k]);
    ObjExtent(P[k]);
    hide PayloadSize;
    SerCopies(P, k, 8, 8 + PayloadSize(Head(P[k])));
  }

  lemma SerSlotByte(P: Pool, k: nat, e: nat, i: nat, d: nat)
    requires WF(P) && k < |P| && e < Head(P[k]).nelem && i < Head(P[k]).psize && d < 4
    ensures var x := PtrPos(Head(P[k]), e, i) + d;
            x < |P[k]| && SerByte(P, k, x) == LE(Rel(P, k, x - d), 4)[d]
  {
    hide PtrPos, InPtr, WordStart, Rel, Head;
    SlotInside(P[k], e, i);
    PtrBytePos(Head(P[k]), e, i, d);
  }

  lemma SerObjSlot(P: Pool, k: nat, e: nat, i: nat)
    requires WF(P) && k < |P| && e < Head(P[k]).nelem && i < Head(P[k]).psize
    ensures PtrPos(Head(P[k]), e, i) + 4 <= |P[k]|
    ensures SerObj(P, k)[PtrPos(Head(P[k]), e, i)..PtrPos(Head(P[k]), e, i) + 4]
         == LE(Rel(P, k, PtrPos(Head(P[k]), e, i)), 4)
  {
    hide PtrPos, Rel, Off, Ser, Head, SerByte, WF;
    var w := PtrPos(Head(P[k]), e, i);
    SerSlotByte(P, k, e, i, 0);
    SerSlotByte(P, k, e, i, 1);
    SerSlotByte(P, k, e, i, 2);
    SerSlotByte(P, k, e, i, 3);
    assert SerObj(P, k)[w..w + 4] == LE(Rel(P, k, w), 4);
  }

  /** The word that serialization leaves in a pointer slot. */
  lemma SerSlotWord(P: Pool, k: nat, e: nat, i: nat)
    requires WF(P) && k < |P| && e < Head(P[k]).nelem && i < Head(P[k]).psize
    ensures var w := PtrPos(Head(P[k]), e, i);
            w + 4 <= |P[k]| && Off(P, k) + w + 4 <= |Ser(P)|
            && Ser(P)[Off(P, k) + w..Off(P, k) + w + 4] == LE(Rel(P, k, w), 4)
  {
    hide PtrPos, Rel, Off, Ser, Head, SerObj, WF;
    SerObjSlot(P, k, e, i);
    SerSlice(P, k, PtrPos(Head(P[k]), e, i), PtrPos(Head(P[k]), e, i) + 4);
  }

  /** Relative pointers of a serialized pool: null for id 0, and otherwise positive, exact distances to
      the 8-aligned header of a later object. */
  lemma RelExact(P: Pool, k: nat, e: nat, i: nat)
    requires WF(P) && Fits(P) && k < |P| && e < Head(P[k]).nelem && i < Head(P[k]).psize
    ensures var w := PtrPos(Head(P[k]), e, i);
            var id := Slot(P[k], e, i);
            if id == 0 then Rel(P, k, w) == 0
            else && k < id < |P|
                 && 0 < Rel(P, k, w) < 0x8000_0000
                 && Off(P, k) + w + 4 * Rel(P, k, w) == Off(P, id)
                 && Off(P, id) % 8 == 0 && Off(P, id) + 8 <= Off(P, |P|)
                 && Off(P, k) + |P[k]| <= Off(P, id)
  {
    hide Off, PtrPos, Head, WFObj, Word;
    var w := PtrPos(Head(P[k]), e, i);
    var id := Slot(P[k], e, i);
    assert SlotsOK(P, k);
    SlotInside(P[k], e, i);
    if id != 0 {
      ObjExtentAt(P, id);
      OffAligned(P, k);
      OffAligned(P, id);
      OffMono(P, k, id);
      OffMono(P, id, |P|);
      hide WF, SlotsOK;
      RelArith(Off(P, k), Off(P, id), w, |P[k]|);
    }
  }

  lemma ObjExtentAt(P: Pool, k: nat)
    requires WF(P) && k < |P|
    ensures |P[k]| >= 8 && |P[k]| % 8 == 0
  {
    assert WFObj(P[k]);
    ObjExtent(P[k]);
  }

  lemma RelArith(from: nat, to: nat, w: nat, n: nat)
    requires from % 8 == 0 && to % 8 == 0 && w % 4 == 0 && w + 4 <= n && from + n <= to < 0x2_0000_0000
    ensures 0 < (to - from - w) / 4 < 0x8000_0000 && from + w + 4 * ((to - from - w) / 4) == to
  {
    var a, b, c := from / 8, to / 8, w / 4;
    assert from == 8 * a && to == 8 * b && w == 4 * c;
    WordsApart(a, b, c);
  }

  lemma WordsApart(a: nat, b: nat, c: nat)
    ensures (8 * b - 8 * a - 4 * c) / 4 == 2 * b - 2 * a - c
  {
  }

  /** Following a pointer in the flat buffer reaches the object the pool's pointer designates. */
  lemma SerPtr(P: Pool, k: nat, e: nat, i: nat)
    requires WF(P) && Fits(P) && k < |P| && e < Head(P[k]).nelem && i < Head(P[k]).psize
    ensures var r := ElemHandle(Head(P[k]).(base := Off(P, k) + 8), e);
            && Readable(Ser(P), r)
            && (Slot(P[k], e, i) == 0 ==> GetPtr(Ser(P), r, i) == NULL)
            && (Slot(P[k], e, i) != 0 ==>
                  k < Slot(P[k], e, i) < |P|
                  && GetPtr(Ser(P), r, i) == ObjInit(Ser(P), Off(P, Slot(P[k], e, i))))
  {
    hide Off, Ser, PtrPos, Head, Slot, Rel, WF, ElemHandle, GetPtr, ObjInit, Readable, ElemSize, SerObj;
    var h := Head(P[k]);
    var r := ElemHandle(h.(base := Off(P, k) + 8), e);
    var w := PtrPos(h, e, i);
    HandleAddress(h, Off(P, k), e, i);
    ElemInSer(P, k, e);
    SerSlotWord(P, k, e, i);
    RelExact(P, k, e, i);
    FollowWord(Ser(P), r, i, Rel(P, k, w));
  }

  lemma HandleAddress(h: Obj, off: nat, e: nat, i: nat)
    ensures var r := ElemHandle(h.(base := off + 8), e);
            r.base + PtrOffs(r, i) == off + PtrPos(h, e, i) && r.base == off + Pos(h, e, 0)
            && ElemSize(r) == ElemSize(h) && r.psize == h.psize && r.ssize == h.ssize
  {
  }

  lemma ElemInSer(P: Pool, k: nat, e: nat)
    requires WF(P) && k < |P| && e < Head(P[k]).nelem
    ensures Readable(Ser(P), ElemHandle(Head(P[k]).(base := Off(P, k) + 8), e))
  {
    assert WFObj(P[k]);
    ScalarInside(P[k], e);
    SerAt(P, k);
    HandleAddress(Head(P[k]), Off(P, k), e, 0);
  }

  /** Reading a pointer word whose value is known. */
  lemma FollowWord(buf: seq<byte>, r: Obj, i: nat, rel: int)
    requires Readable(buf, r) && i < r.psize && 0 <= rel < 0x8000_0000
    requires r.base + PtrOffs(r, i) + 4 <= |buf|
    requires buf[r.base + PtrOffs(r, i)..r.base + PtrOffs(r, i) + 4] == LE(rel, 4)
    ensures rel == 0 ==> GetPtr(buf, r, i) == NULL
    ensures rel != 0 && rel * 4 + r.base + PtrOffs(r, i) < |buf| && |buf| < U64 ==>
              GetPtr(buf, r, i) == ObjInit(buf, rel * 4 + r.base + PtrOffs(r, i))
  {
    hide ObjInit;
    SignedLE(rel);
    assert RelPtr(buf, r, i) == rel;
  }

  lemma SignedLE(v: int)
    requires 0 <= v < 0x8000_0000
    ensures Signed(UnLE(LE(v, 4)), 4) == v
  {
    UnLEofLE(v, 4);
    Pow256Values();
  }

  // ---------------------------------------------------------------- serialization preserves meaning

  /** The flat reader sees in the serialized buffer exactly the tree that the builder holds, and
      following pointers ends after at most as many steps as there are objects. */
  lemma {:induction false} Meaning(P: Pool, k: nat, depth: nat)
    requires WF(P) && Fits(P) && k < |P| && depth >= |P| - k
    ensures Accepted(|Ser(P)|, ObjInit(Ser(P), Off(P, k)))
    ensures DecodeFlat(Ser(P), ObjInit(Ser(P), Off(P, k)), depth) == DecodePool(P, k)
    decreases |P| - k, 1
  {
    var S, o := Ser(P), ObjInit(Ser(P), Off(P, k));
    var h := Head(P[k]);
    InitAccepted(S, Off(P, k));
    SerHead(P, k);
    assert o == h.(base := Off(P, k) + 8);
    assert PayloadRaw(S, o) == PoolRaw(P[k]) by {
      SizeOfBase(h, Off(P, k) + 8);
      if h.nelem > 0 && h.psize == 0 {
        SerRaw(P, k);
      }
    }
    forall e | 0 <= e < h.nelem
      ensures DecodeFlatElem(S, o, e, depth) == DecodePoolElem(P, k, e)
    {
      MeaningElem(P, k, e, depth);
    }
    hide Ser, Off, ObjInit, Accepted, Head, WF, PayloadRaw, PoolRaw, DecodeFlatElem, DecodePoolElem;
  }

  lemma {:induction false} MeaningElem(P: Pool, k: nat, e: nat, depth: nat)
    requires WF(P) && Fits(P) && k < |P| && depth >= |P| - k && e < Head(P[k]).nelem
    ensures Accepted(|Ser(P)|, Head(P[k]).(base := Off(P, k) + 8))
    ensures DecodeFlatElem(Ser(P), Head(P[k]).(base := Off(P, k) + 8), e, depth) == DecodePoolElem(P, k, e)
    decreases |P| - k, 0
  {
    hide Off, ObjInit, Accepted, Head, DecodeFlat, GetPtr, Fits, Slot, PayloadSize, InRange, PtrPos, SerObj;
    var S, o := Ser(P), Head(P[k]).(base := Off(P, k) + 8);
    SerHead(P, k);
    InitAccepted(S, Off(P, k));
    var r := ElemHandle(o, e);
    ElemReadable(|S|, o, e);
    SerScalar(P, k, e);
    HandleAddress(Head(P[k]), Off(P, k), e, 0);
    hide Ser, WF, Pos;
    forall i | 0 <= i < o.psize
      ensures Accepted(|S|, GetPtr(S, r, i)) && DecodeFlat(S, GetPtr(S, r, i), depth - 1) == DecodeSlot(P, k, e, i)
    {
      MeaningSlot(P, k, e, i, depth);
    }
    hide ElemHandle, DecodeSlot;
  }

  lemma {:induction false} MeaningSlot(P: Pool, k: nat, e: nat, i: nat, depth: nat)
    requires WF(P) && Fits(P) && k < |P| && depth >= |P| - k
    requires e < Head(P[k]).nelem && i < Head(P[k]).psize
    ensures var r := ElemHandle(Head(P[k]).(base := Off(P, k) + 8), e);
            && Readable(Ser(P), r) && Accepted(|Ser(P)|, GetPtr(Ser(P), r, i))
            && DecodeFlat(Ser(P), GetPtr(Ser(P), r, i), depth - 1) == DecodeSlot(P, k, e, i)
    decreases |P| - k, 0, 0
  {
    hide Off, ObjInit, Accepted, Head, GetPtr, Fits, Slot, WF, Ser, ElemHandle, Readable;
    var r := ElemHandle(Head(P[k]).(base := Off(P, k) + 8), e);
    SerPtr(P, k, e, i);
    PtrAccepted(Ser(P), r, i);
    if Slot(P[k], e, i) != 0 {
      Meaning(P, Slot(P[k], e, i), depth - 1);
    }
    hide DecodePool;
  }

  /** The tree of a pool never contains a cut, so neither does the flat reader's. */
  predicate Complete(t: Tree)
    decreases t
  {
    match t
    case Null => true
    case Cut => false
    case Node(_, _, _, _, elems) =>
      forall e :: 0 <= e < |elems| ==> forall i :: 0 <= i < |elems[e].kids| ==> Complete(elems[e].kids[i])
  }

  lemma {:induction false} PoolComplete(P: Pool, k: nat)
    requires WF(P) && k < |P|
    ensures Complete(DecodePool(P, k))
    decreases |P| - k
  {
    var t := DecodePool(P, k);
    forall e, i | 0 <= e < |t.elems| && 0 <= i < |t.elems[e].kids|
      ensures Complete(t.elems[e].kids[i])
    {
      assert t.elems[e] == DecodePoolElem(P, k, e);
      assert t.elems[e].kids[i] == DecodeSlot(P, k, e, i);
      assert SlotsOK(P, k);
      if Slot(P[k], e, i) != 0 {
        PoolComplete(P, Slot(P[k], e, i));
      }
    }
  }
}
