/** What the building operations do to the contents of a pool: to the scalar part, the pointer slots and
    the bits of every element of every object. */
module Cells {
  import opened Bytes
  import opened Wire
  import opened Pool
  import opened Decode
  import S = Simulation
  import A = Access

  /** Bit j of the bytes behind the header. */
  predicate RawBit(b: seq<byte>, j: nat) {
    8 + j / 8 < |b| && Bit(b[8 + j / 8], j % 8)
  }

  /** In the last byte of a bit list, the bits behind the last element are zero. */
  ghost predicate SpareBitsZero(b: seq<byte>)
    requires WFObj(b)
  {
    ElemSize(Head(b)) == 0 ==>
      forall d :: Head(b).nelem <= d && d / 8 < PayloadSize(Head(b)) ==> !RawBit(b, d)
  }

  /** Bit j of a bit list. */
  predicate PoolBit(b: seq<byte>, j: nat)
    requires WFObj(b)
  {
    ElemSize(Head(b)) == 0 && RawBit(b, j)
  }

  /** Element e holds the same in two objects of the same sizes. */
  predicate SameElem(b: seq<byte>, c: seq<byte>, e: nat)
    requires WFObj(b) && WFObj(c) && e < Head(b).nelem && e < Head(c).nelem && Head(b).psize == Head(c).psize
  {
    && PoolScalar(c, e) == PoolScalar(b, e)
    && (forall i :: 0 <= i < Head(b).psize ==> Slot(c, e, i) == Slot(b, e, i))
  }

  /** Only element e of object k has changed, and objects were added. */
  ghost predicate Frame(P: Pool, Q: Pool, k: nat, e: nat)
    requires WF(P) && WF(Q)
  {
    && k < |P| <= |Q|
    && (forall j :: 0 <= j < |P| && j != k ==> Q[j] == P[j])
    && Head(Q[k]) == Head(P[k])
    && e < Head(P[k]).nelem
    && (forall d :: 0 <= d < Head(P[k]).nelem && d != e ==> SameElem(P[k], Q[k], d))
    && (forall d :: 0 <= d < Head(P[k]).nelem && d != e ==> PoolBit(Q[k], d) == PoolBit(P[k], d))
  }

  lemma FrameRefl(P: Pool, k: nat, e: nat)
    requires WF(P) && k < |P| && e < Head(P[k]).nelem
    ensures Frame(P, P, k, e)
  {
  }

  lemma FrameTrans(P: Pool, Q: Pool, R: Pool, k: nat, e: nat)
    requires WF(P) && WF(Q) && WF(R) && Frame(P, Q, k, e) && Frame(Q, R, k, e)
    ensures Frame(P, R, k, e)
  {
    hide WF, PoolBit, PoolScalar, Slot, Head, WFObj;
    ObjAt(P, k);
    ObjAt(Q, k);
    ObjAt(R, k);
    forall d | 0 <= d < Head(P[k]).nelem && d != e
      ensures SameElem(P[k], R[k], d) && PoolBit(R[k], d) == PoolBit(P[k], d)
    {
      assert SameElem(P[k], Q[k], d) && SameElem(Q[k], R[k], d);
      assert PoolBit(Q[k], d) == PoolBit(P[k], d);
    }
  }

  // ---------------------------------------------------------------- writing scalars

  /** The bytes of one element, cut out. */
  lemma WriteInside(b: seq<byte>, p: nat, n: nat, a: nat, w: seq<byte>)
    requires p + n <= |b| && a + |w| <= n
    ensures Splice(b, p + a, w)[p..p + n] == Splice(b[p..p + n], a, w)
  {
  }

  lemma WriteOutside(b: seq<byte>, x: nat, w: seq<byte>, p: nat, n: nat)
    requires x + |w| <= |b| && p + n <= |b| && (p + n <= x || x + |w| <= p)
    ensures Splice(b, x, w)[p..p + n] == b[p..p + n]
  {
  }

  lemma ElemsApart(h: Obj, e: nat, d: nat)
    requires e < h.nelem && d < h.nelem && e != d
    ensures Pos(h, e, 0) + ElemSize(h) <= Pos(h, d, 0) || Pos(h, d, 0) + ElemSize(h) <= Pos(h, e, 0)
  {
    StrideApart(e, d, ElemSize(h));
  }

  /** Bytes written into the scalar part of element e show up there and nowhere else. */
  lemma ScalarCells(P: Pool, k: nat, e: nat, a: nat, w: seq<byte>)
    requires WF(P) && k < |P| && e < Head(P[k]).nelem && a + |w| <= Head(P[k]).ssize
    ensures Pos(Head(P[k]), e, 0) + a + |w| <= |P[k]|
    ensures var Q := Write(P, k, Pos(Head(P[k]), e, 0) + a, w);
            && WF(Q) && Head(Q[k]) == Head(P[k])
            && PoolScalar(Q[k], e) == Splice(PoolScalar(P[k], e), a, w)
            && (forall d :: 0 <= d < Head(P[k]).nelem && d != e ==> PoolScalar(Q[k], d) == PoolScalar(P[k], d))
            && (forall d, i :: 0 <= d < Head(P[k]).nelem && 0 <= i < Head(P[k]).psize ==>
                  Slot(Q[k], d, i) == Slot(P[k], d, i))
  {
    hide WF, WFObj, InPtr, Off, Ser, Slot, Head, Pos, PayloadSize;
    ObjAt(P, k);
    var h := Head(P[k]);
    var x := Pos(h, e, 0) + a;
    ScalarInside(P[k], e);
    ScalarRange(h, e);
    AtLeast(h, e);
    WriteScalars(P, k, x, w);
    ObjAt(Write(P, k, x, w), k);
    WriteInside(P[k], Pos(h, e, 0), h.ssize, a, w);
    forall d | 0 <= d < h.nelem && d != e
      ensures PoolScalar(Write(P, k, x, w)[k], d) == PoolScalar(P[k], d)
    {
      ElemsApart(h, e, d);
      ScalarInside(P[k], d);
      WriteOutside(P[k], x, w, Pos(h, d, 0), h.ssize);
    }
  }

  lemma AtLeast(h: Obj, e: nat)
    ensures Pos(h, e, 0) >= 8
  {
  }

  /** A scalar field of element e is written as if the scalar part stood alone. */
  lemma FieldCells(P: Pool, k: nat, e: nat, size: nat, tag: nat, v: int)
    requires WF(P) && k < |P| && e < Head(P[k]).nelem && ElemSize(Head(P[k])) != 0
    ensures Readable(P[k], ElemHandle(Head(P[k]), e))
    ensures var Q := P[k := A.WriteField(P[k], ElemHandle(Head(P[k]), e), size, tag, v)];
            && WF(Q) && Head(Q[k]) == Head(P[k])
            && PoolScalar(Q[k], e) == A.WriteField(PoolScalar(P[k], e), Alone(PoolScalar(P[k], e)), size, tag, v)
            && (forall d :: 0 <= d < Head(P[k]).nelem && d != e ==> PoolScalar(Q[k], d) == PoolScalar(P[k], d))
            && (forall d, i :: 0 <= d < Head(P[k]).nelem && 0 <= i < Head(P[k]).psize ==>
                  Slot(Q[k], d, i) == Slot(P[k], d, i))
  {
    hide WF, WFObj, Slot, Head, Splice, PoolScalar, PayloadSize, Write;
    ObjAt(P, k);
    ScalarInside(P[k], e);
    var h := Head(P[k]);
    var r := ElemHandle(h, e);
    var sc := PoolScalar(P[k], e);
    assert sc == P[k][r.base..r.base + r.ssize] by { ScalarIs(P[k], e); }
    var a, w := WriteIsSplice(P[k], r, sc, size, tag, v);
    if |w| > 0 {
      ScalarCells(P, k, e, a, w);
      WriteIs(P, k, Pos(h, e, 0) + a, w);
    } else {
      assert P[k := P[k]] == P;
    }
  }

  lemma WriteIs(P: Pool, k: nat, x: nat, w: seq<byte>)
    requires k < |P| && x + |w| <= |P[k]|
    ensures Write(P, k, x, w) == P[k := Splice(P[k], x, w)]
  {
  }

  lemma ScalarIs(b: seq<byte>, e: nat)
    requires WFObj(b) && e < Head(b).nelem
    ensures Pos(Head(b), e, 0) + Head(b).ssize <= |b|
    ensures PoolScalar(b, e) == b[Pos(Head(b), e, 0)..Pos(Head(b), e, 0) + Head(b).ssize]
    ensures ElemHandle(Head(b), e).base == Pos(Head(b), e, 0)
  {
    ScalarInside(b, e);
  }

  /** A handle to bytes that hold nothing but the scalar part of one element. */
  function Alone(scalar: seq<byte>): Obj {
    Obj(0, 1, |scalar|, 0)
  }

  /** A field write replaces the same bytes in the element and in its scalar part alone, or none. */
  lemma WriteIsSplice(b: seq<byte>, r: Obj, sc: seq<byte>, size: nat, tag: nat, v: int)
    returns (a: nat, w: seq<byte>)
    requires Readable(b, r) && sc == b[r.base..r.base + r.ssize]
    ensures a + |w| <= r.ssize
    ensures |w| > 0 ==>
              && A.WriteField(b, r, size, tag, v) == Splice(b, r.base + a, w)
              && A.WriteField(sc, Alone(sc), size, tag, v) == Splice(sc, a, w)
    ensures |w| == 0 ==>
              A.WriteField(b, r, size, tag, v) == b && A.WriteField(sc, Alone(sc), size, tag, v) == sc
  {
    hide Splice, PutBit, PutInt;
    if size == 0 {
      if tag / 8 < r.ssize {
        S.PutBitAsSplice(b, r, tag, v != 0);
        S.PutBitAsSplice(sc, Alone(sc), tag, v != 0);
        assert sc[tag / 8] == b[r.base + tag / 8];
        a, w := tag / 8, [S.NewByte(sc[tag / 8], tag % 8, v != 0)];
      } else {
        S.PutBitBeyond(b, r, tag, v != 0);
        S.PutBitBeyond(sc, Alone(sc), tag, v != 0);
        a, w := 0, [];
      }
    } else {
      PutIntIs(b, r, tag, size, v);
      PutIntIs(sc, Alone(sc), tag, size, v);
      a, w := if tag + size <= r.ssize then tag else 0, if tag + size <= r.ssize then LE(v, size) else [];
    }
  }

  lemma PutIntIs(b: seq<byte>, r: Obj, tag: nat, size: nat, v: int)
    requires Readable(b, r)
    ensures tag + size <= r.ssize ==>
              r.base + tag + size <= |b| && PutInt(b, r, tag, size, v) == Splice(b, r.base + tag, LE(v, size))
    ensures tag + size > r.ssize ==> PutInt(b, r, tag, size, v) == b
  {
  }

  // ---------------------------------------------------------------- bit lists

  lemma BitInside(b: seq<byte>, n: nat)
    requires WFObj(b) && ElemSize(Head(b)) == 0 && n < Head(b).nelem
    ensures 8 + n / 8 + 1 <= 8 + PayloadSize(Head(b)) <= |b|
  {
    ObjExtent(b);
  }

  /** Storing one bit of a bit list leaves the others. */
  lemma BitCells(P: Pool, k: nat, n: nat, v: bool)
    requires WF(P) && k < |P| && ElemSize(Head(P[k])) == 0 && n < Head(P[k]).nelem
    ensures Readable(P[k], GetElem(Head(P[k]), n))
    ensures var Q := P[k := PutBit(P[k], GetElem(Head(P[k]), n), n % 8, v)];
            && WF(Q) && Head(Q[k]) == Head(P[k])
            && (forall d :: 0 <= d < Head(P[k]).nelem ==>
                  PoolBit(Q[k], d) == if d == n then v else PoolBit(P[k], d))
            && (SpareBitsZero(P[k]) ==> SpareBitsZero(Q[k]))
  {
    hide WF, RawBit, SpareBitsZero, WFObj, Slot, Head, PayloadSize, Write, InPtr, Ser, Off, SetBit, Bit, PoolBit;
    hide Splice, RoundUp;
    ObjAt(P, k);
    var b, h := P[k], Head(P[k]);
    S.ElemInObj(b, n);
    var r := GetElem(h, n);
    BitHandle(h, n);
    BitInside(b, n);
    S.PutBitAsSplice(b, r, n % 8, v);
    var w := [S.NewByte(b[r.base], n % 8, v)];
    hide GetElem, PutBit;
    WriteScalars(P, k, r.base, w);
    WriteIs(P, k, r.base, w);
    ObjAt(P[k := Splice(b, r.base, w)], k);
    forall d | 0 <= d < h.nelem
      ensures PoolBit(Splice(b, r.base, w), d) == if d == n then v else PoolBit(b, d)
    {
      BitInside(b, d);
      OneBit(b, n, d, v);
      BitIs(b, d);
      BitIs(Splice(b, r.base, w), d);
    }
    if SpareBitsZero(b) {
      SpareKept(b, n, v);
    }
  }

  lemma SpareKept(b: seq<byte>, n: nat, v: bool)
    requires WFObj(b) && ElemSize(Head(b)) == 0 && n < Head(b).nelem && 8 + n / 8 < |b|
    requires var c := Splice(b, 8 + n / 8, [S.NewByte(b[8 + n / 8], n % 8, v)]);
             WFObj(c) && Head(c) == Head(b)
    requires SpareBitsZero(b)
    ensures SpareBitsZero(Splice(b, 8 + n / 8, [S.NewByte(b[8 + n / 8], n % 8, v)]))
  {
    hide WFObj, Head, PayloadSize, Bit, SetBit, Splice;
    var c := Splice(b, 8 + n / 8, [S.NewByte(b[8 + n / 8], n % 8, v)]);
    var h := Head(b);
    ObjExtent(b);
    forall d | h.nelem <= d && d / 8 < PayloadSize(h)
      ensures !RawBit(c, d)
    {
      assert !RawBit(b, d);
      OneBit(b, n, d, v);
    }
  }

  lemma BitIs(b: seq<byte>, d: nat)
    requires WFObj(b) && ElemSize(Head(b)) == 0 && 8 + d / 8 < |b|
    ensures PoolBit(b, d) == RawBit(b, d) == Bit(b[8 + d / 8], d % 8)
  {
  }

  lemma BitHandle(h: Obj, n: nat)
    requires ElemSize(h) == 0 && n < h.nelem && h.base == 8
    ensures var r := GetElem(h, n); r.base == 8 + n / 8 && r.ssize == 1 && r.psize == 0 && n % 8 / 8 == 0
  {
  }

  lemma OneBit(b: seq<byte>, n: nat, d: nat, v: bool)
    requires 8 + n / 8 < |b| && 8 + d / 8 < |b|
    ensures var c := Splice(b, 8 + n / 8, [S.NewByte(b[8 + n / 8], n % 8, v)]);
            Bit(c[8 + d / 8], d % 8) == if d == n then v else Bit(b[8 + d / 8], d % 8)
  {
    hide Bit, SetBit;
    SpliceAt(b, 8 + n / 8, [S.NewByte(b[8 + n / 8], n % 8, v)]);
    if d / 8 == n / 8 {
      Pow2Byte();
      SetBitSpec(b[8 + n / 8], n % 8, v, d % 8, 8);
      assert d == 8 * (d / 8) + d % 8 && n == 8 * (n / 8) + n % 8;
    }
  }

  // ---------------------------------------------------------------- linking a new object

  /** No element of the object points anywhere. */
  predicate NoLinks(b: seq<byte>) {
    forall e, i :: 0 <= e < Head(b).nelem && 0 <= i < Head(b).psize ==> Slot(b, e, i) == 0
  }

  lemma AppendWF(P: Pool, b: seq<byte>)
    requires WF(P) && WFObj(b) && NoLinks(b) && |P| + 1 < 0x8000_0000
    ensures WF(P + [b])
  {
    hide WFObj, Slot, Head;
    var Q := P + [b];
    forall k | 0 <= k < |Q|
      ensures WFObj(Q[k]) && SlotsOK(Q, k)
    {
      if k < |P| {
        assert WFObj(P[k]) && SlotsOK(P, k);
      }
    }
  }

  /** A new object, linked from a slot of element e. */
  function Linked(P: Pool, k: nat, e: nat, i: nat, b: seq<byte>): Pool
    requires WF(P) && k < |P| && e < Head(P[k]).nelem && i < Head(P[k]).psize
  {
    SlotInside(P[k], e, i);
    Write(P + [b], k, PtrPos(Head(P[k]), e, i), LE(|P|, 4))
  }

  lemma LinkCells(P: Pool, k: nat, e: nat, i: nat, b: seq<byte>)
    requires WF(P) && k < |P| && e < Head(P[k]).nelem && i < Head(P[k]).psize
    requires WFObj(b) && NoLinks(b) && |P| + 1 < 0x8000_0000
    ensures var Q := Linked(P, k, e, i, b);
            && WF(Q) && Head(Q[k]) == Head(P[k]) && |Q| == |P| + 1 && Q[|P|] == b
            && (forall j :: 0 <= j < |P| && j != k ==> Q[j] == P[j])
            && (forall d :: 0 <= d < Head(P[k]).nelem ==> PoolScalar(Q[k], d) == PoolScalar(P[k], d))
            && (forall d, j :: 0 <= d < Head(P[k]).nelem && 0 <= j < Head(P[k]).psize ==>
                  Slot(Q[k], d, j) == if d == e && j == i then |P| else Slot(P[k], d, j))
  {
    hide WF, WFObj, InPtr, Off, Ser, Slot, Head, PtrPos, Pos, PayloadSize, NoLinks;
    ObjAt(P, k);
    AppendWF(P, b);
    var Q := P + [b];
    assert Q[k] == P[k];
    WritePtr(Q, k, e, i, |P|);
    var h := Head(P[k]);
    var x := PtrPos(h, e, i);
    var R := Write(Q, k, x, LE(|P|, 4));
    ObjAt(R, k);
    forall d | 0 <= d < h.nelem
      ensures PoolScalar(R[k], d) == PoolScalar(P[k], d)
    {
      ScalarInside(P[k], d);
      ScalarsOff(h, e, i, d);
      WriteOutside(P[k], x, LE(|P|, 4), Pos(h, d, 0), h.ssize);
    }
  }

  lemma ScalarsOff(h: Obj, e: nat, i: nat, d: nat)
    requires e < h.nelem && d < h.nelem && i < h.psize
    ensures Pos(h, d, 0) + h.ssize <= PtrPos(h, e, i) || PtrPos(h, e, i) + 4 <= Pos(h, d, 0)
  {
    if d != e {
      ElemsApart(h, e, d);
      assert PtrPos(h, e, i) + 4 <= Pos(h, e, 0) + ElemSize(h);
    }
  }

  // ---------------------------------------------------------------- fresh elements

  /** Element e was never written. */
  predicate Untouched(b: seq<byte>, e: nat)
    requires WFObj(b) && e < Head(b).nelem
  {
    && PoolScalar(b, e) == Zeros(Head(b).ssize)
    && (forall i :: 0 <= i < Head(b).psize ==> Slot(b, e, i) == 0)
    && !PoolBit(b, e)
  }

  lemma ZeroBit(j: nat)
    ensures !Bit(0, j)
  {
    if j > 0 {
      ZeroBit(j - 1);
    }
  }

  /** An element whose bytes, in a list of bits its bit, are zero. */
  lemma BlankElem(b: seq<byte>, e: nat)
    requires WFObj(b) && e < Head(b).nelem
    requires forall x :: Pos(Head(b), e, 0) <= x < Pos(Head(b), e, 0) + ElemSize(Head(b)) && x < |b| ==> b[x] == 0
    requires ElemSize(Head(b)) == 0 ==> 8 + e / 8 < |b| && !Bit(b[8 + e / 8], e % 8)
    ensures Untouched(b, e)
  {
    hide WFObj, Head, Word;
    var h := Head(b);
    ScalarInside(b, e);
    ScalarIs(b, e);
    hide Pos;
    assert PoolScalar(b, e) == Zeros(h.ssize);
    forall i | 0 <= i < h.psize
      ensures Slot(b, e, i) == 0
    {
      SlotInside(b, e, i);
      SlotInElem(h, e, i);
      ZeroWord(b, PtrPos(h, e, i));
    }
  }

  lemma SlotInElem(h: Obj, e: nat, i: nat)
    requires i < h.psize
    ensures Pos(h, e, 0) <= PtrPos(h, e, i) && PtrPos(h, e, i) + 4 <= Pos(h, e, 0) + ElemSize(h)
  {
  }

  /** All elements of a new object are blank. */
  lemma NewCells(o: Obj)
    requires ValidShape(o)
    ensures WFObj(NewObj(o)) && Head(NewObj(o)) == o.(base := 8)
    ensures forall e :: 0 <= e < o.nelem ==> Untouched(NewObj(o), e)
    ensures NoLinks(NewObj(o)) && SpareBitsZero(NewObj(o))
  {
    hide WFObj, SpareBitsZero, Head, NewObj, ValidShape, Slot, PoolScalar, PoolBit, Pos;
    NewObjWF(o);
    var b := NewObj(o);
    forall e | 0 <= e < o.nelem
      ensures Untouched(b, e)
    {
      if ElemSize(Head(b)) == 0 {
        BitInside(b, e);
        ZeroBit(e % 8);
      }
      PosLow(Head(b), e);
      BlankElem(b, e);
    }
    NoneLinked(b);
    NewSpare(o);
  }

  lemma NewSpare(o: Obj)
    requires ValidShape(o)
    ensures WFObj(NewObj(o)) && SpareBitsZero(NewObj(o))
  {
    hide WFObj, Head, NewObj, ValidShape, PayloadSize, Bit;
    NewObjWF(o);
    var b := NewObj(o);
    ObjExtent(b);
    if ElemSize(Head(b)) == 0 {
      forall d | Head(b).nelem <= d && d / 8 < PayloadSize(Head(b))
        ensures !RawBit(b, d)
      {
        ZeroBit(d % 8);
      }
    }
  }

  lemma NoneLinked(b: seq<byte>)
    requires WFObj(b) && forall e :: 0 <= e < Head(b).nelem ==> Untouched(b, e)
    ensures NoLinks(b)
  {
    hide WFObj, Head, Slot, PoolScalar, PoolBit;
    forall e, i | 0 <= e < Head(b).nelem && 0 <= i < Head(b).psize
      ensures Slot(b, e, i) == 0
    {
      assert Untouched(b, e);
    }
  }

  lemma ObjLong(b: seq<byte>)
    requires WFObj(b)
    ensures |b| >= 8
  {
  }

  lemma PosLow(h: Obj, e: nat)
    ensures Pos(h, e, 0) >= 8
  {
  }

  /** Growing keeps the elements that were there; the new ones are blank, provided that the bits behind
      the last element of a bit list are zero. */
  lemma GrowCells(b: seq<byte>, n: nat)
    requires WFObj(b) && Head(b).nelem <= n && ValidShape(Head(b).(nelem := n))
    ensures WFObj(Grown(b, n)) && Head(Grown(b, n)) == Head(b).(nelem := n)
    ensures forall d :: 0 <= d < Head(b).nelem ==>
              SameElem(b, Grown(b, n), d) && PoolBit(Grown(b, n), d) == PoolBit(b, d)
    ensures SpareBitsZero(b) ==> SpareBitsZero(Grown(b, n))
    ensures SpareBitsZero(b) ==> forall d :: Head(b).nelem <= d < n ==> Untouched(Grown(b, n), d)
  {
    hide WFObj, Head, ValidShape, Slot, PoolScalar, PoolBit, Pos, Grown, SpareBitsZero;
    ObjLong(b);
    GrownWF(b, n);
    forall d | 0 <= d < Head(b).nelem
      ensures SameElem(b, Grown(b, n), d) && PoolBit(Grown(b, n), d) == PoolBit(b, d)
    {
      GrownOld(b, n, d);
    }
    if SpareBitsZero(b) {
      GrownSpare(b, n);
      forall d | Head(b).nelem <= d < n
        ensures Untouched(Grown(b, n), d)
      {
        GrownNew(b, n, d);
      }
    }
  }

  lemma GrownOld(b: seq<byte>, n: nat, d: nat)
    requires WFObj(b) && Head(b).nelem <= n && ValidShape(Head(b).(nelem := n)) && d < Head(b).nelem
    requires WFObj(Grown(b, n)) && Head(Grown(b, n)) == Head(b).(nelem := n)
    ensures SameElem(b, Grown(b, n), d) && PoolBit(Grown(b, n), d) == PoolBit(b, d)
  {
    hide WFObj, Head, ValidShape, Grown, Slot, PayloadSize;
    ObjLong(b);
    GrownWF(b, n);
    var c, h := Grown(b, n), Head(b);
    ScalarInside(b, d);
    ScalarIs(b, d);
    ScalarIs(c, d);
    SamePos(h, n, d);
    hide Pos;
    assert c[Pos(h, d, 0)..Pos(h, d, 0) + h.ssize] == b[Pos(h, d, 0)..Pos(h, d, 0) + h.ssize];
    forall i | 0 <= i < h.psize
      ensures Slot(c, d, i) == Slot(b, d, i)
    {
      GrownSlot(b, n, d, i);
    }
    if ElemSize(h) == 0 {
      BitInside(b, d);
    }
  }

  lemma GrownSpare(b: seq<byte>, n: nat)
    requires WFObj(b) && Head(b).nelem <= n && ValidShape(Head(b).(nelem := n))
    requires WFObj(Grown(b, n)) && Head(Grown(b, n)) == Head(b).(nelem := n) && SpareBitsZero(b)
    ensures SpareBitsZero(Grown(b, n))
  {
    hide WFObj, Head, ValidShape, Grown, PayloadSize, Bit;
    ObjLong(b);
    var c, h := Grown(b, n), Head(b);
    GrownWF(b, n);
    ObjExtent(b);
    ObjExtent(c);
    if ElemSize(h) == 0 {
      forall d | n <= d && d / 8 < PayloadSize(Head(c))
        ensures !RawBit(c, d)
      {
        ZeroBit(d % 8);
        if d / 8 < PayloadSize(h) {
          assert !RawBit(b, d);
        }
      }
    }
  }

  lemma SamePos(h: Obj, n: nat, d: nat)
    ensures Pos(h.(nelem := n), d, 0) == Pos(h, d, 0) >= 8
  {
  }

  lemma GrownNew(b: seq<byte>, n: nat, d: nat)
    requires WFObj(b) && Head(b).nelem <= n && ValidShape(Head(b).(nelem := n)) && Head(b).nelem <= d < n
    requires WFObj(Grown(b, n)) && Head(Grown(b, n)) == Head(b).(nelem := n) && SpareBitsZero(b)
    ensures Untouched(Grown(b, n), d)
  {
    hide WFObj, Head, ValidShape, Grown, Slot, Untouched, PayloadSize, Bit;
    GrownWF(b, n);
    ObjExtent(b);
    var c, h := Grown(b, n), Head(b);
    SamePos(h, n, d);
    if ElemSize(h) == 0 {
      BitInside(c, d);
      ZeroBit(d % 8);
      assert Bit(c[8 + d / 8], d % 8) ==> d / 8 < PayloadSize(h) && RawBit(b, d);
    } else {
      Beyond(h, d);
    }
    BlankElem(c, d);
  }

  lemma Beyond(h: Obj, d: nat)
    requires h.nelem <= d
    ensures Pos(h, d, 0) >= 8 + ElemSize(h) * h.nelem
  {
    MulMono(h.nelem, d, ElemSize(h));
  }
}
