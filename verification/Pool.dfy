/** The builder's pool as a value: one byte string per object, header first, whose pointer words
    hold object ids; and the flat buffer that serialization makes of it (lib/pool.c). */
module Pool {
  import opened Bytes
  import opened Wire

  type Pool = seq<seq<byte>>

  /** The word at byte position x of an object. */
  function Word(b: seq<byte>, x: nat): nat {
    if x + 4 <= |b| then UnLE(b[x..x + 4]) else 0
  }

  // ---------------------------------------------------------------- positions inside an object

  /** Byte position, counted from the header, of byte r of element e. */
  function Pos(h: Obj, e: nat, r: nat): nat {
    var o, d, x := h, e, r;
    8 + d * ElemSize(o) + x
  }

  function PtrPos(h: Obj, e: nat, i: nat): nat {
    var o, d, j := h, e, i;
    Pos(o, d, PtrOffs(o, j))
  }

  /** Position x belongs to a pointer word. */
  predicate InPtr(h: Obj, x: nat) {
    h.psize > 0 && 8 <= x < 8 + ElemSize(h) * h.nelem && (x - 8) % ElemSize(h) >= h.ssize
  }

  /** Where the pointer word that contains x starts. */
  function WordStart(h: Obj, x: nat): (w: int)
    requires InPtr(h, x)
    ensures 0 <= x - w < 4
  {
    var o, y := h, x;
    y - ((y - 8) % ElemSize(o) - o.ssize) % 4
  }

  lemma PosInside(h: Obj, e: nat, r: nat)
    requires e < h.nelem && r < ElemSize(h)
    ensures Pos(h, e, r) < 8 + ElemSize(h) * h.nelem
    ensures Pos(h, e, 0) + ElemSize(h) <= 8 + ElemSize(h) * h.nelem
    ensures (Pos(h, e, r) - 8) % ElemSize(h) == r && (Pos(h, e, r) - 8) / ElemSize(h) == e
  {
    var es := ElemSize(h);
    assert e * es + es == (e + 1) * es;
    MulMono(e + 1, h.nelem, es);
    ModUnique(e * es + r, es, e, r);
  }

  lemma ScalarPos(h: Obj, e: nat, r: nat)
    requires e < h.nelem && r < h.ssize
    ensures !InPtr(h, Pos(h, e, r)) && Pos(h, e, r) < 8 + ElemSize(h) * h.nelem
  {
    PosInside(h, e, r);
  }

  lemma ScalarRange(h: Obj, e: nat)
    requires e < h.nelem
    ensures forall x :: Pos(h, e, 0) <= x < Pos(h, e, 0) + h.ssize ==> !InPtr(h, x)
  {
    hide InPtr;
    forall x | Pos(h, e, 0) <= x < Pos(h, e, 0) + h.ssize
      ensures !InPtr(h, x)
    {
      ScalarPos(h, e, x - Pos(h, e, 0));
    }
  }

  lemma PtrBytePos(h: Obj, e: nat, i: nat, d: nat)
    requires e < h.nelem && i < h.psize && d < 4
    ensures var x := PtrPos(h, e, i) + d;
            InPtr(h, x) && WordStart(h, x) == PtrPos(h, e, i) && x < 8 + ElemSize(h) * h.nelem
  {
    PosInside(h, e, PtrOffs(h, i) + d);
  }

  lemma DivBelow(y: nat, m: nat, n: nat)
    requires m > 0 && y < m * n
    ensures y / m < n && y == (y / m) * m + y % m
  {
    if y / m >= n {
      MulMono(n, y / m, m);
    }
  }

  lemma SlotArith(x: nat, m: nat, r: nat, s: nat, p: nat)
    requires x == 8 + m + r && s <= r < s + 4 * p
    ensures (r - s) / 4 < p && x - (r - s) % 4 == 8 + m + (s + 4 * ((r - s) / 4))
  {
  }

  /** Every pointer byte belongs to exactly one slot of one element. */
  lemma PtrByteSlot(h: Obj, x: nat) returns (e: nat, i: nat)
    requires InPtr(h, x)
    ensures e < h.nelem && i < h.psize && WordStart(h, x) == PtrPos(h, e, i)
    ensures PtrPos(h, e, i) + 4 <= 8 + ElemSize(h) * h.nelem
  {
    var es := ElemSize(h);
    var r := (x - 8) % es;
    assert WordStart(h, x) == x - (r - h.ssize) % 4 && h.ssize <= r < h.ssize + 4 * h.psize;
    hide InPtr, WordStart, ElemSize;
    e := (x - 8) / es;
    i := (r - h.ssize) / 4;
    DivBelow(x - 8, es, h.nelem);
    assert PtrPos(h, e, i) == 8 + e * es + (h.ssize + 4 * i);
    hide PtrPos;
    SlotArith(x, e * es, r, h.ssize, h.psize);
    SlotEnd(h, e, i);
  }

  // ---------------------------------------------------------------- well-formed pools

  function ObjSize(o: Obj): nat {
    var h := o;
    RoundUp(8 + PayloadSize(h), 8)
  }

  /** What the asserts of object creation demand: sizes in range, pointers aligned, and for bit lists
      a count whose rounding does not wrap around. */
  predicate ValidShape(o: Obj) {
    && InRange(o)
    && (o.psize > 0 ==> o.ssize % 4 == 0)
    && (ElemSize(o) == 0 ==> o.nelem + 7 < U32)
  }

  function Head(b: seq<byte>): (o: Obj)
    ensures InRange(o) && o.base == 8
  {
    if |b| >= 8 then HeaderAt(b, 0) else Obj(8, 0, 0, 0)
  }

  /** One object fills its buffer exactly, up to the next multiple of 8, and the bytes that round it up are
      zero. */
  predicate WFObj(b: seq<byte>) {
    && |b| >= 8
    && ValidShape(Head(b))
    && 8 + PayloadSize(Head(b)) <= |b| < 16 + PayloadSize(Head(b)) && |b| % 8 == 0
    && (forall x :: 8 + PayloadSize(Head(b)) <= x < |b| ==> b[x] == 0)
  }

  function Slot(b: seq<byte>, e: nat, i: nat): nat {
    Word(b, PtrPos(Head(b), e, i))
  }

  /** Non-null pointers lead to later objects only. */
  predicate SlotsOK(P: Pool, k: nat)
    requires k < |P|
  {
    var h := Head(P[k]);
    forall e, i :: 0 <= e < h.nelem && 0 <= i < h.psize ==>
      Slot(P[k], e, i) == 0 || k < Slot(P[k], e, i) < |P|
  }

  predicate WF(P: Pool) {
    && |P| < 0x8000_0000
    && (forall k :: 0 <= k < |P| ==> WFObj(P[k]))
    && (forall k :: 0 <= k < |P| ==> SlotsOK(P, k))
  }

  lemma ObjExtent(b: seq<byte>)
    requires WFObj(b)
    ensures 8 + PayloadSize(Head(b)) <= |b| && |b| % 8 == 0
    ensures ElemSize(Head(b)) != 0 ==> PayloadSize(Head(b)) == ElemSize(Head(b)) * Head(b).nelem
    ensures ElemSize(Head(b)) == 0 ==> PayloadSize(Head(b)) == (Head(b).nelem + 7) / 8
    ensures Head(b).nelem > 0 ==> PayloadSize(Head(b)) > 0
  {
    hide PayloadSize, RoundUp, Head, ElemSize;
    PayloadFacts(Head(b));
    RoundUpProps(8 + PayloadSize(Head(b)), 8);
  }

  /** The size of a buffer is that of its object, rounded up. */
  lemma SizeOfWF(b: seq<byte>)
    requires WFObj(b)
    ensures |b| == ObjSize(Head(b)) >= 8
  {
    hide Head, PayloadSize, RoundUp, ValidShape;
    RoundedSize(|b|, 8 + PayloadSize(Head(b)));
  }

  lemma RoundedSize(n: nat, x: nat)
    requires x <= n < x + 8 && n % 8 == 0
    ensures n == RoundUp(x, 8)
  {
  }

  lemma PayloadFacts(h: Obj)
    requires ValidShape(h)
    ensures ElemSize(h) != 0 ==> PayloadSize(h) == ElemSize(h) * h.nelem
    ensures ElemSize(h) == 0 ==> PayloadSize(h) == (h.nelem + 7) / 8
    ensures h.nelem > 0 ==> PayloadSize(h) > 0
  {
    if ElemSize(h) == 0 {
      ModUnique(h.nelem + 7, U32, 0, h.nelem + 7);
    } else if h.nelem > 0 {
      ElemListExtent(h);
    }
  }

  /** Finding a pool object through its header gives a usable handle. */
  lemma HeadIsInit(b: seq<byte>)
    requires WFObj(b)
    ensures ObjInit(b, 0) == Head(b)
  {
    ObjExtent(b);
  }

  // ---------------------------------------------------------------- serialization

  /** Offset of object k in the flat buffer. */
  function Off(P: Pool, k: nat): nat
    requires k <= |P|
  {
    if k == 0 then 0 else Off(P, k - 1) + |P[k - 1]|
  }

  /** The relative pointer, in words, that replaces the id found at position w of object k. */
  function Rel(P: Pool, k: nat, w: nat): int
    requires k < |P|
  {
    var id := Word(P[k], w);
    if id == 0 || id >= |P| then 0 else (Off(P, id) - Off(P, k) - w) / 4
  }

  function SerByte(P: Pool, k: nat, x: nat): byte
    requires k < |P| && x < |P[k]|
  {
    if InPtr(Head(P[k]), x) && WordStart(Head(P[k]), x) >= 0 then
      LE(Rel(P, k, WordStart(Head(P[k]), x)), 4)[x - WordStart(Head(P[k]), x)]
    else P[k][x]
  }

  /** Object k with its ids replaced by relative pointers. */
  function SerObj(P: Pool, k: nat): (s: seq<byte>)
    requires k < |P|
    ensures |s| == |P[k]|
  {
    seq(|P[k]|, x requires 0 <= x < |P[k]| => SerByte(P, k, x))
  }

  function SerPrefix(P: Pool, m: nat): (s: seq<byte>)
    requires m <= |P|
    ensures |s| == Off(P, m)
  {
    if m == 0 then [] else SerPrefix(P, m - 1) + SerObj(P, m - 1)
  }

  /** The flat buffer. */
  function Ser(P: Pool): (s: seq<byte>)
    ensures |s| == Off(P, |P|)
  {
    SerPrefix(P, |P|)
  }

  lemma {:induction false} OffMono(P: Pool, j: nat, k: nat)
    requires j <= k <= |P|
    ensures Off(P, j) <= Off(P, k)
    ensures j < k ==> Off(P, j) + |P[j]| <= Off(P, k)
    decreases k
  {
    if j < k {
      OffMono(P, j, k - 1);
    }
  }

  lemma {:induction false} OffAligned(P: Pool, k: nat)
    requires k <= |P| && forall j :: 0 <= j < k ==> WFObj(P[j])
    ensures Off(P, k) % 8 == 0 && Off(P, k) >= 8 * k
  {
    hide WFObj;
    if k > 0 {
      OffAligned(P, k - 1);
      ObjExtent(P[k - 1]);
    }
  }

  lemma {:induction false} OffAgree(P: Pool, Q: Pool, k: nat)
    requires k <= |P| && k <= |Q| && forall j :: 0 <= j < k ==> |P[j]| == |Q[j]|
    ensures Off(P, k) == Off(Q, k)
  {
    if k > 0 {
      OffAgree(P, Q, k - 1);
    }
  }

  lemma SliceOfPrefix(s: seq<byte>, t: seq<byte>, a: nat, b: nat)
    requires a <= b <= |s|
    ensures (s + t)[a..b] == s[a..b]
  {
  }

  /** The bytes of object k, found at its offset in the flat buffer. */
  lemma {:induction false} SerPrefixAt(P: Pool, m: nat, k: nat)
    requires k < m <= |P|
    ensures Off(P, k) + |P[k]| <= Off(P, m)
    ensures SerPrefix(P, m)[Off(P, k)..Off(P, k) + |P[k]|] == SerObj(P, k)
    decreases m
  {
    hide SerObj;
    OffMono(P, k, m);
    if k < m - 1 {
      SerPrefixAt(P, m - 1, k);
      SliceOfPrefix(SerPrefix(P, m - 1), SerObj(P, m - 1), Off(P, k), Off(P, k) + |P[k]|);
    }
  }

  lemma SerAt(P: Pool, k: nat)
    requires k < |P|
    ensures Off(P, k) + |P[k]| <= |Ser(P)|
    ensures Ser(P)[Off(P, k)..Off(P, k) + |P[k]|] == SerObj(P, k)
  {
    SerPrefixAt(P, |P|, k);
  }

  lemma SerByteAt(P: Pool, k: nat, x: nat)
    requires k < |P| && x < |P[k]|
    ensures Off(P, k) + x < |Ser(P)|
    ensures Ser(P)[Off(P, k) + x] == SerByte(P, k, x)
  {
    hide SerByte, Ser, Off;
    SerAt(P, k);
    var s := Ser(P)[Off(P, k)..Off(P, k) + |P[k]|];
    assert s[x] == Ser(P)[Off(P, k) + x];
  }

  ghost predicate SameElsewhere(P: Pool, Q: Pool, k: nat)
    requires |P| == |Q|
  {
    forall j :: 0 <= j < |P| && j != k ==> SerObj(Q, j) == SerObj(P, j)
  }

  lemma SameAt(P: Pool, Q: Pool, k: nat, j: nat)
    requires |P| == |Q| && SameElsewhere(P, Q, k) && j < |P| && j != k
    ensures SerObj(Q, j) == SerObj(P, j)
  {
  }

  /** Rewriting bytes of one object rewrites the same bytes of the flat buffer. */
  lemma {:induction false} SerSplice(P: Pool, Q: Pool, m: nat, k: nat, a: nat, w: seq<byte>)
    requires m <= |P| == |Q| && k < |P| && SameElsewhere(P, Q, k)
    requires a + |w| <= |P[k]| == |Q[k]| && SerObj(Q, k) == Splice(SerObj(P, k), a, w)
    ensures k < m ==> Off(P, k) + |P[k]| <= Off(P, m)
    ensures k < m ==> SerPrefix(Q, m) == Splice(SerPrefix(P, m), Off(P, k) + a, w)
    ensures k >= m ==> SerPrefix(Q, m) == SerPrefix(P, m)
  {
    hide SameElsewhere, SerObj, Splice;
    if m > 0 {
      SerSplice(P, Q, m - 1, k, a, w);
      if k == m - 1 {
        SpliceRight(SerPrefix(P, k), SerObj(P, k), a, w);
      } else {
        SameAt(P, Q, k, m - 1);
        if k < m - 1 {
          SpliceLeft(SerPrefix(P, m - 1), SerObj(P, m - 1), Off(P, k) + a, w);
        }
      }
    }
  }

  // ---------------------------------------------------------------- building operations

  /** A new object: its header, then zeros. */
  function NewObj(o: Obj): (b: seq<byte>)
    ensures |b| >= 8
  {
    RoundUpProps(8 + PayloadSize(o), 8);
    HeaderBytes(o) + Zeros(ObjSize(o) - 8)
  }

  function Create(P: Pool, o: Obj): Pool {
    P + [NewObj(o)]
  }

  /** Overwrites bytes of object k. */
  function Write(P: Pool, k: nat, x: nat, w: seq<byte>): (Q: Pool)
    requires k < |P| && x + |w| <= |P[k]|
    ensures |Q| == |P|
  {
    P[k := Splice(P[k], x, w)]
  }

  /** Object b grown to n elements: new bytes are zero and the header is rewritten. */
  function Grown(b: seq<byte>, n: nat): (r: seq<byte>)
    requires |b| >= 8
    ensures |r| >= |b|
  {
    var size := ObjSize(Head(b).(nelem := n));
    var longer := if size > |b| then b + Zeros(size - |b|) else b;
    Splice(longer, 0, LE(n, 4))
  }

  lemma SizeOfBase(o: Obj, base: nat)
    ensures PayloadSize(o.(base := base)) == PayloadSize(o)
  {
  }

  lemma NewObjWF(o: Obj)
    requires ValidShape(o)
    ensures WFObj(NewObj(o)) && Head(NewObj(o)) == o.(base := 8)
    ensures forall x :: 8 <= x < |NewObj(o)| ==> NewObj(o)[x] == 0
  {
    SizeOfBase(o, 8);
    RoundUpProps(8 + PayloadSize(o), 8);
    var b := NewObj(o);
    assert b[0..8] == HeaderBytes(o);
    HeaderRoundTrip(o, b, 0);
    hide PayloadSize, RoundUp, HeaderBytes, HeaderAt;
  }

  lemma ZeroWord(b: seq<byte>, x: nat)
    requires x + 4 <= |b| && forall y :: x <= y < x + 4 ==> b[y] == 0
    ensures Word(b, x) == 0
  {
    assert b[x..x + 4] == Zeros(4);
    ZerosDecode(4);
  }

  lemma SlotInside(b: seq<byte>, e: nat, i: nat)
    requires WFObj(b) && e < Head(b).nelem && i < Head(b).psize
    ensures PtrPos(Head(b), e, i) >= 8 && PtrPos(Head(b), e, i) + 4 <= |b|
    ensures PtrPos(Head(b), e, i) % 4 == 0
  {
    ObjExtent(b);
    SlotAligned(Head(b), e, i);
    PtrBytePos(Head(b), e, i, 3);
  }

  lemma SlotAligned(h: Obj, e: nat, i: nat)
    requires i < h.psize && h.ssize % 4 == 0
    ensures PtrPos(h, e, i) % 4 == 0 && PtrPos(h, e, i) >= 8
  {
    var v, w := h.ssize / 4, h.ssize / 4 + h.psize;
    assert ElemSize(h) == 4 * w;
    FourTimes(e, w);
    assert PtrPos(h, e, i) == 8 + 4 * (e * w) + 4 * v + 4 * i;
    ModUnique(PtrPos(h, e, i), 4, 2 + e * w + v + i, 0);
  }

  lemma FourTimes(e: nat, w: nat)
    ensures e * (4 * w) == 4 * (e * w)
  {
  }

  lemma CreateWF(P: Pool, o: Obj)
    requires WF(P) && ValidShape(o) && |P| + 1 < 0x8000_0000
    ensures WF(Create(P, o))
  {
    NewObjWF(o);
    var Q := Create(P, o);
    forall k | 0 <= k < |Q|
      ensures WFObj(Q[k]) && SlotsOK(Q, k)
    {
      if k < |P| {
        assert WFObj(P[k]) && SlotsOK(P, k);
      } else {
        var b := NewObj(o);
        forall e, i | 0 <= e < Head(b).nelem && 0 <= i < Head(b).psize
          ensures Slot(b, e, i) == 0
        {
          SlotInside(b, e, i);
          var p := PtrPos(Head(b), e, i);
          ZeroWord(b, p);
        }
      }
    }
  }

  /** The last object has no pointers, so it is copied as it is. */
  lemma SerLast(P: Pool)
    requires WF(P) && |P| > 0
    ensures SerObj(P, |P| - 1) == P[|P| - 1]
  {
    hide PtrPos, InPtr, WordStart, Word, Head, Off;
    var n := |P| - 1;
    assert SlotsOK(P, n);
    hide WF;
    ZerosDecode(4);
    forall x | 0 <= x < |P[n]|
      ensures SerByte(P, n, x) == P[n][x]
    {
      SerLastByte(P, x);
    }
  }

  lemma SerLastByte(P: Pool, x: nat)
    requires |P| > 0 && SlotsOK(P, |P| - 1) && x < |P[|P| - 1]| && WFObj(P[|P| - 1])
    ensures SerByte(P, |P| - 1, x) == P[|P| - 1][x]
  {
    var n := |P| - 1;
    var b := P[n];
    if InPtr(Head(b), x) {
      hide PtrPos, InPtr, WordStart, Head, WFObj;
      var e, i := PtrByteSlot(Head(b), x);
      var w := PtrPos(Head(b), e, i);
      SlotInside(b, e, i);
      assert Slot(b, e, i) == 0;
      LEofUnLE(b[w..w + 4]);
      assert b[w..w + 4][x - w] == b[x];
    }
  }

  /** Creating an object appends its bytes, unchanged, to the flat buffer. */
  lemma SerCreate(P: Pool, o: Obj)
    requires WF(P) && ValidShape(o) && |P| + 1 < 0x8000_0000
    ensures Ser(Create(P, o)) == Ser(P) + NewObj(o)
  {
    hide WF, SerObj;
    var Q := Create(P, o);
    CreateWF(P, o);
    SerLast(Q);
    SerExtend(P, Q, |P|);
  }

  /** Objects are not affected by what comes after the objects they refer to. */
  lemma {:induction false} SerExtend(P: Pool, Q: Pool, m: nat)
    requires WF(P) && m <= |P| <= |Q|
    requires forall j :: 0 <= j < m ==> Q[j] == P[j]
    requires forall j :: 0 <= j < |P| - 1 ==> |P[j]| == |Q[j]|
    ensures SerPrefix(Q, m) == SerPrefix(P, m)
  {
    hide SerObj, WF;
    if m > 0 {
      SerExtend(P, Q, m - 1);
      SerObjAgree(P, Q, m - 1);
    }
  }

  lemma SerObjAgree(P: Pool, Q: Pool, k: nat)
    requires WF(P) && k < |P| <= |Q| && Q[k] == P[k]
    requires forall j :: 0 <= j < |P| - 1 ==> |P[j]| == |Q[j]|
    ensures SerObj(Q, k) == SerObj(P, k)
  {
    assert SlotsOK(P, k);
    forall x | 0 <= x < |P[k]|
      ensures SerByte(Q, k, x) == SerByte(P, k, x)
    {
      hide WF, PtrPos, InPtr, WordStart, Word, Head, Off;
      var h := Head(P[k]);
      if InPtr(h, x) {
        var e, i := PtrByteSlot(h, x);
        assert Slot(P[k], e, i) == Word(P[k], WordStart(h, x));
        RelAgree(P, Q, k, WordStart(h, x));
      }
    }
  }

  /** A relative pointer depends only on the sizes of the objects up to its target. */
  lemma RelAgree(P: Pool, Q: Pool, k: nat, w: nat)
    requires k < |P| <= |Q| && Word(Q[k], w) == Word(P[k], w) < |P|
    requires forall j :: 0 <= j < |P| - 1 ==> |P[j]| == |Q[j]|
    ensures Rel(Q, k, w) == Rel(P, k, w)
  {
    hide Word, Off;
    OffAgree(P, Q, k);
    OffAgree(P, Q, Word(P[k], w));
  }

  lemma SpliceHead(b: seq<byte>, a: nat, w: seq<byte>)
    requires |b| >= 8 && 8 <= a && a + |w| <= |b|
    ensures Head(Splice(b, a, w)) == Head(b)
  {
    assert Splice(b, a, w)[0..8] == b[0..8];
  }

  lemma SpliceWFObj(b: seq<byte>, a: nat, w: seq<byte>)
    requires WFObj(b) && 8 <= a && a + |w| <= |b| && a + |w| <= 8 + PayloadSize(Head(b))
    ensures WFObj(Splice(b, a, w)) && Head(Splice(b, a, w)) == Head(b)
  {
    SpliceHead(b, a, w);
    hide PayloadSize, RoundUp, ValidShape, HeaderAt;
  }

  /** Replacing one object by another of the same shape keeps the pool well-formed if its pointers do. */
  lemma ReplaceWF(P: Pool, k: nat, b: seq<byte>)
    requires WF(P) && k < |P| && WFObj(b)
    requires forall e, i :: 0 <= e < Head(b).nelem && 0 <= i < Head(b).psize ==>
               Slot(b, e, i) == 0 || k < Slot(b, e, i) < |P|
    ensures WF(P[k := b])
  {
    hide WFObj, Slot;
    var Q := P[k := b];
    assert SlotsOK(Q, k);
    forall j | 0 <= j < |P|
      ensures WFObj(Q[j]) && SlotsOK(Q, j)
    {
      assert WFObj(P[j]) && SlotsOK(P, j);
    }
  }

  /** Writing bytes outside the header and outside every pointer word. */
  lemma WriteScalars(P: Pool, k: nat, a: nat, w: seq<byte>)
    requires WF(P) && k < |P| && 8 <= a && a + |w| <= 8 + PayloadSize(Head(P[k])) && a + |w| <= |P[k]|
    requires forall x :: a <= x < a + |w| ==> !InPtr(Head(P[k]), x)
    ensures WF(Write(P, k, a, w)) && Head(Write(P, k, a, w)[k]) == Head(P[k])
    ensures forall e, i :: 0 <= e < Head(P[k]).nelem && 0 <= i < Head(P[k]).psize ==>
              Slot(Write(P, k, a, w)[k], e, i) == Slot(P[k], e, i)
    ensures Off(P, k) + |P[k]| <= |Ser(P)|
    ensures Ser(Write(P, k, a, w)) == Splice(Ser(P), Off(P, k) + a, w)
  {
    var Q := Write(P, k, a, w);
    var h := Head(P[k]);
    SpliceWFObj(P[k], a, w);
    assert SlotsOK(P, k);
    forall e, i | 0 <= e < h.nelem && 0 <= i < h.psize
      ensures Slot(Q[k], e, i) == Slot(P[k], e, i)
    {
      SameSlot(P[k], Q[k], e, i, a, |w|);
    }
    hide WFObj, Slot;
    ReplaceWF(P, k, Q[k]);
    WriteScalarsSer(P, k, a, w);
    SerReplace(P, k, Q[k], a, w);
  }

  /** The flat buffer after one object was rewritten in place. */
  lemma SerReplace(P: Pool, k: nat, b: seq<byte>, a: nat, w: seq<byte>)
    requires WF(P) && k < |P| && |b| == |P[k]| && a + |w| <= |b|
    requires SerObj(P[k := b], k) == Splice(SerObj(P, k), a, w)
    ensures Off(P, k) + |P[k]| <= |Ser(P)|
    ensures Ser(P[k := b]) == Splice(Ser(P), Off(P, k) + a, w)
  {
    var Q := P[k := b];
    hide WF;
    forall j | 0 <= j < |P| && j != k
      ensures SerObj(Q, j) == SerObj(P, j)
    {
      SerObjAgree(P, Q, j);
    }
    hide SerObj;
    SerSplice(P, Q, |P|, k, a, w);
    OffMono(P, k, |P|);
  }

  lemma SameSlot(b: seq<byte>, c: seq<byte>, e: nat, i: nat, a: nat, n: nat)
    requires WFObj(b) && |b| == |c| && Head(b) == Head(c)
    requires e < Head(b).nelem && i < Head(b).psize
    requires forall x :: a <= x < a + n ==> !InPtr(Head(b), x)
    requires forall x :: 0 <= x < |b| && !(a <= x < a + n) ==> c[x] == b[x]
    ensures Slot(c, e, i) == Slot(b, e, i)
  {
    hide PtrPos, Head, InPtr, WordStart, WFObj, ElemSize, UnLE;
    var p := PtrPos(Head(b), e, i);
    SlotInside(b, e, i);
    PtrBytePos(Head(b), e, i, 0);
    PtrBytePos(Head(b), e, i, 1);
    PtrBytePos(Head(b), e, i, 2);
    PtrBytePos(Head(b), e, i, 3);
    assert c[p..p + 4] == b[p..p + 4];
  }

  lemma WriteScalarsSer(P: Pool, k: nat, a: nat, w: seq<byte>)
    requires WF(P) && k < |P| && 8 <= a && a + |w| <= |P[k]|
    requires forall x :: a <= x < a + |w| ==> !InPtr(Head(P[k]), x)
    ensures SerObj(Write(P, k, a, w), k) == Splice(SerObj(P, k), a, w)
  {
    hide WF, InPtr, Head, SerByte, Splice;
    SpliceAt(SerObj(P, k), a, w);
    forall x | 0 <= x < |P[k]|
      ensures SerByte(Write(P, k, a, w), k, x) == if a <= x < a + |w| then w[x - a] else SerByte(P, k, x)
    {
      WriteScalarsSerByte(P, k, a, w, x);
    }
  }

  lemma WriteScalarsSerByte(P: Pool, k: nat, a: nat, w: seq<byte>, x: nat)
    requires WF(P) && k < |P| && 8 <= a && a + |w| <= |P[k]| && x < |P[k]|
    requires forall x :: a <= x < a + |w| ==> !InPtr(Head(P[k]), x)
    ensures SerByte(Write(P, k, a, w), k, x) == if a <= x < a + |w| then w[x - a] else SerByte(P, k, x)
  {
    hide PtrPos, Off, Head, WordStart, InPtr, Word;
    assert WFObj(P[k]) && SlotsOK(P, k);
    var Q := Write(P, k, a, w);
    var h := Head(P[k]);
    SpliceHead(P[k], a, w);
    hide WF, WFObj;
    if InPtr(h, x) {
      var e, i := PtrByteSlot(h, x);
      SameSlot(P[k], Q[k], e, i, a, |w|);
      assert Slot(P[k], e, i) == Word(P[k], WordStart(h, x));
      RelAgree(P, Q, k, WordStart(h, x));
    }
  }

  /** Storing the id of a later object stores the distance to it in the flat buffer. */
  lemma WritePtr(P: Pool, k: nat, e: nat, i: nat, t: nat)
    requires WF(P) && k < t < |P| && e < Head(P[k]).nelem && i < Head(P[k]).psize
    ensures PtrPos(Head(P[k]), e, i) + 4 <= |P[k]| && Off(P, k) + |P[k]| <= |Ser(P)|
    ensures var p := PtrPos(Head(P[k]), e, i);
            var Q := Write(P, k, p, LE(t, 4));
            && WF(Q) && Head(Q[k]) == Head(P[k])
            && (forall f, j :: 0 <= f < Head(P[k]).nelem && 0 <= j < Head(P[k]).psize ==>
                  Slot(Q[k], f, j) == if f == e && j == i then t else Slot(P[k], f, j))
            && Ser(Q) == Splice(Ser(P), Off(P, k) + p, LE((Off(P, t) - Off(P, k) - p) / 4, 4))
  {
    hide PtrPos, PayloadSize, Off, SerObj, Slot, Head;
    var b := WritePtrObj(P, k, e, i, t);
    hide WFObj;
    ReplaceWF(P, k, b);
    hide SlotsOK, WF;
    WritePtrSer(P, k, e, i, t);
    var p := PtrPos(Head(P[k]), e, i);
    SerReplace(P, k, b, p, LE((Off(P, t) - Off(P, k) - p) / 4, 4));
  }

  lemma WritePtrObj(P: Pool, k: nat, e: nat, i: nat, t: nat) returns (b: seq<byte>)
    requires WF(P) && k < t < |P| && e < Head(P[k]).nelem && i < Head(P[k]).psize
    ensures 8 <= PtrPos(Head(P[k]), e, i) && PtrPos(Head(P[k]), e, i) + 4 <= |P[k]|
    ensures b == Splice(P[k], PtrPos(Head(P[k]), e, i), LE(t, 4))
    ensures WFObj(b) && Head(b) == Head(P[k])
    ensures forall f, j :: 0 <= f < Head(P[k]).nelem && 0 <= j < Head(P[k]).psize ==>
              && Slot(b, f, j) == (if f == e && j == i then t else Slot(P[k], f, j))
              && (Slot(b, f, j) == 0 || k < Slot(b, f, j) < |P|)
  {
    hide PtrPos, PayloadSize, Slot, Head;
    var h := Head(P[k]);
    SlotInside(P[k], e, i);
    var p := PtrPos(h, e, i);
    assert p + 4 <= 8 + PayloadSize(h) by {
      ObjExtent(P[k]);
      SlotEnd(h, e, i);
    }
    b := Splice(P[k], p, LE(t, 4));
    SpliceWFObj(P[k], p, LE(t, 4));
    assert SlotsOK(P, k);
    forall f, j | 0 <= f < h.nelem && 0 <= j < h.psize
      ensures Slot(b, f, j) == if f == e && j == i then t else Slot(P[k], f, j)
    {
      WritePtrSlot(P[k], e, i, t, f, j);
    }
  }

  lemma SlotEnd(h: Obj, e: nat, i: nat)
    requires e < h.nelem && i < h.psize
    ensures PtrPos(h, e, i) + 4 <= 8 + ElemSize(h) * h.nelem && ElemSize(h) != 0
  {
    PosInside(h, e, PtrOffs(h, i));
  }

  lemma WordAfter(b: seq<byte>, p: nat, q: nat, t: nat)
    requires p + 4 <= |b| && q + 4 <= |b| && t < 0x8000_0000
    ensures p == q ==> Word(Splice(b, p, LE(t, 4)), q) == t
    ensures p + 4 <= q || q + 4 <= p ==> Word(Splice(b, p, LE(t, 4)), q) == Word(b, q)
  {
    var c := Splice(b, p, LE(t, 4));
    if p == q {
      assert c[p..p + 4] == LE(t, 4);
      UnLEofLE(t, 4);
      Pow256Values();
    } else if p + 4 <= q || q + 4 <= p {
      assert c[q..q + 4] == b[q..q + 4];
    }
  }

  lemma WritePtrSlot(b: seq<byte>, e: nat, i: nat, t: nat, f: nat, j: nat)
    requires WFObj(b) && t < 0x8000_0000
    requires e < Head(b).nelem && i < Head(b).psize && f < Head(b).nelem && j < Head(b).psize
    ensures PtrPos(Head(b), e, i) + 4 <= |b|
    ensures var c := Splice(b, PtrPos(Head(b), e, i), LE(t, 4));
            Slot(c, f, j) == if f == e && j == i then t else Slot(b, f, j)
  {
    SlotInside(b, e, i);
    SlotInside(b, f, j);
    var h := Head(b);
    if f != e || i != j {
      SlotsApart(h, e, i, f, j);
    }
    hide PtrPos, WFObj;
    SpliceHead(b, PtrPos(h, e, i), LE(t, 4));
    hide Head, Word;
    WordAfter(b, PtrPos(h, e, i), PtrPos(h, f, j), t);
  }

  lemma SlotsApart(h: Obj, e: nat, i: nat, f: nat, j: nat)
    requires e < h.nelem && i < h.psize && f < h.nelem && j < h.psize && (e != f || i != j)
    ensures PtrPos(h, e, i) + 4 <= PtrPos(h, f, j) || PtrPos(h, f, j) + 4 <= PtrPos(h, e, i)
  {
    if e != f {
      StrideApart(e, f, ElemSize(h));
    }
  }

  lemma WritePtrSer(P: Pool, k: nat, e: nat, i: nat, t: nat)
    requires WF(P) && k < t < |P| && e < Head(P[k]).nelem && i < Head(P[k]).psize
    requires PtrPos(Head(P[k]), e, i) + 4 <= |P[k]|
    ensures var p := PtrPos(Head(P[k]), e, i);
            SerObj(Write(P, k, p, LE(t, 4)), k)
            == Splice(SerObj(P, k), p, LE((Off(P, t) - Off(P, k) - p) / 4, 4))
  {
    hide PtrPos, Head, Off, SerByte, WF, Splice;
    ObjAt(P, k);
    var h := Head(P[k]);
    var p := PtrPos(h, e, i);
    var w := LE((Off(P, t) - Off(P, k) - p) / 4, 4);
    SlotInside(P[k], e, i);
    var s, r := SerObj(Write(P, k, p, LE(t, 4)), k), Splice(SerObj(P, k), p, w);
    SpliceAt(SerObj(P, k), p, w);
    forall x | 0 <= x < |P[k]|
      ensures s[x] == r[x]
    {
      WritePtrSerByte(P, k, e, i, t, x);
    }
  }

  lemma WritePtrSerByte(P: Pool, k: nat, e: nat, i: nat, t: nat, x: nat)
    requires WF(P) && k < t < |P| && e < Head(P[k]).nelem && i < Head(P[k]).psize
    requires 8 <= PtrPos(Head(P[k]), e, i) && PtrPos(Head(P[k]), e, i) + 4 <= |P[k]| && x < |P[k]|
    ensures var p := PtrPos(Head(P[k]), e, i);
            SerByte(Write(P, k, p, LE(t, 4)), k, x)
            == if p <= x < p + 4 then LE((Off(P, t) - Off(P, k) - p) / 4, 4)[x - p] else SerByte(P, k, x)
  {
    hide PtrPos, Off, Head, WordStart, InPtr, Word;
    assert WFObj(P[k]) && SlotsOK(P, k);
    var h := Head(P[k]);
    var p := PtrPos(h, e, i);
    var Q := Write(P, k, p, LE(t, 4));
    SpliceHead(P[k], p, LE(t, 4));
    hide WF, WFObj;
    if p <= x < p + 4 {
      PtrBytePos(h, e, i, x - p);
      WritePtrSlot(P[k], e, i, t, e, i);
      OffAgree(P, Q, k);
      OffAgree(P, Q, t);
      assert Rel(Q, k, p) == (Off(P, t) - Off(P, k) - p) / 4;
    } else if InPtr(h, x) {
      var f, j := PtrByteSlot(h, x);
      WritePtrSlot(P[k], e, i, t, f, j);
      assert !(f == e && j == i);
      assert Slot(P[k], f, j) == Word(P[k], WordStart(h, x));
      RelAgree(P, Q, k, WordStart(h, x));
    }
  }

  // ---------------------------------------------------------------- growing an object

  lemma HeadBytes(b: seq<byte>)
    requires |b| >= 8
    ensures b[0..8] == HeaderBytes(Head(b))
  {
    var v := UnLE(b[0..8]);
    UnLEBound(b[0..8]);
    Pow256Values();
    LEofUnLE(b[0..8]);
    assert v == (v / U48) * U48 + v % U48 && v / U32 == (v / U48) * U16 + v / U32 % U16;
  }

  lemma GrownHead(b: seq<byte>, n: nat)
    requires |b| >= 8 && n < U32
    ensures Head(Grown(b, n)) == Head(b).(nelem := n)
    ensures forall x :: 8 <= x < |Grown(b, n)| ==> Grown(b, n)[x] == if x < |b| then b[x] else 0
    ensures |Grown(b, n)| == if ObjSize(Head(b).(nelem := n)) > |b| then ObjSize(Head(b).(nelem := n)) else |b|
  {
    hide Head, ObjSize;
    var c := Grown(b, n);
    HeadBytes(b);
    HeaderCount(Head(b), n);
    assert c[0..8] == LE(n, 4) + b[0..8][4..];
    GrownHeadOf(c, Head(b).(nelem := n));
  }

  lemma GrownHeadOf(c: seq<byte>, o: Obj)
    requires |c| >= 8 && InRange(o) && o.base == 8 && c[0..8] == HeaderBytes(o)
    ensures Head(c) == o
  {
    HeaderRoundTrip(o, c, 0);
  }

  lemma PayloadMono(h: Obj, n: nat)
    requires h.nelem <= n && ValidShape(h.(nelem := n))
    ensures PayloadSize(h) <= PayloadSize(h.(nelem := n)) && ObjSize(h) <= ObjSize(h.(nelem := n))
    ensures ValidShape(h)
  {
    var g := h.(nelem := n);
    PayloadFacts(h);
    PayloadFacts(g);
    assert ElemSize(g) == ElemSize(h);
    MulMono(h.nelem, n, ElemSize(h));
    hide PayloadSize, ElemSize;
    assert PayloadSize(h) <= PayloadSize(g);
    RoundUpMono(8 + PayloadSize(h), 8 + PayloadSize(g));
  }

  lemma RoundUpMono(x: nat, y: nat)
    requires x <= y
    ensures RoundUp(x, 8) <= RoundUp(y, 8)
  {
  }

  /** Growing keeps the object well-formed and its old elements as they were; new elements are zero. */
  lemma GrownWF(b: seq<byte>, n: nat)
    requires WFObj(b) && Head(b).nelem <= n && ValidShape(Head(b).(nelem := n))
    ensures WFObj(Grown(b, n)) && Head(Grown(b, n)) == Head(b).(nelem := n)
    ensures |Grown(b, n)| == ObjSize(Head(b).(nelem := n)) >= |b|
    ensures forall x :: 8 <= x < |Grown(b, n)| ==>
              Grown(b, n)[x] == if x < 8 + PayloadSize(Head(b)) then b[x] else 0
  {
    hide Head, PayloadSize, RoundUp, Grown;
    GrownHead(b, n);
    PayloadMono(Head(b), n);
    SizeOfWF(b);
    RoundUpProps(8 + PayloadSize(Head(b).(nelem := n)), 8);
  }

  /** Shrinking does not clear what it cuts off: the padding is zero, as the format demands, if and only if
      the elements that go were. */
  lemma ShrunkIff(b: seq<byte>, n: nat)
    requires WFObj(b) && n <= Head(b).nelem && ObjSize(Head(b).(nelem := n)) == |b|
    ensures Head(Grown(b, n)) == Head(b).(nelem := n)
    ensures WFObj(Grown(b, n))
       <==> forall x :: 8 + PayloadSize(Head(b).(nelem := n)) <= x < 8 + PayloadSize(Head(b)) ==> b[x] == 0
  {
    hide Head, PayloadSize, RoundUp, Grown;
    var g := Head(b).(nelem := n);
    GrownHead(b, n);
    PayloadMono(g, Head(b).nelem);
    assert g.(nelem := Head(b).nelem) == Head(b);
    RoundUpProps(8 + PayloadSize(g), 8);
    var c := Grown(b, n);
    assert forall x :: 8 <= x < |b| ==> c[x] == b[x];
    if WFObj(c) {
      forall x | 8 + PayloadSize(g) <= x < 8 + PayloadSize(Head(b))
        ensures b[x] == 0
      {
        assert c[x] == b[x];
      }
    }
  }

  /** A list of two bytes, cut to one and grown again: the second is back instead of a blank. */
  lemma ShrinkLeaves(b: seq<byte>)
    requires WFObj(b) && Head(b) == Obj(8, 2, 1, 0) && b[9] != 0
    ensures !WFObj(Grown(b, 1)) && Head(Grown(b, 1)).nelem == 1 && Grown(Grown(b, 1), 2)[9] == b[9]
  {
    hide Head, Grown, WFObj;
    TwoBytes(b, Head(b));
    ShrunkIff(b, 1);
    GrownHead(b, 1);
    GrownHead(Grown(b, 1), 2);
  }

  lemma TwoBytes(b: seq<byte>, h: Obj)
    requires WFObj(b) && Head(b) == h == Obj(8, 2, 1, 0)
    ensures |b| == 16 && PayloadSize(h) == 2 && PayloadSize(h.(nelem := 1)) == 1
    ensures ObjSize(h.(nelem := 1)) == 16 && ObjSize(h.(nelem := 2)) == 16
  {
    hide Head;
  }

  lemma GrownSlot(b: seq<byte>, n: nat, e: nat, i: nat)
    requires WFObj(b) && Head(b).nelem <= n && ValidShape(Head(b).(nelem := n)) && e < n && i < Head(b).psize
    ensures Slot(Grown(b, n), e, i) == if e < Head(b).nelem then Slot(b, e, i) else 0
  {
    hide Head, PayloadSize, RoundUp, Grown, ValidShape, PtrPos, ElemSize, WFObj;
    ObjExtent(b);
    GrownWF(b, n);
    var c, h := Grown(b, n), Head(b);
    SlotInside(c, e, i);
    var w := PtrPos(h, e, i);
    assert PtrPos(Head(c), e, i) == w by { SamePtrPos(h, n, e, i); }
    ObjExtent(b);
    PtrSizes(h, e, i);
    if e < h.nelem {
      SlotInside(b, e, i);
      SlotEnd(h, e, i);
      assert c[w..w + 4] == b[w..w + 4];
    } else {
      ZeroWord(c, w);
    }
  }

  lemma SamePtrPos(h: Obj, n: nat, e: nat, i: nat)
    ensures PtrPos(h.(nelem := n), e, i) == PtrPos(h, e, i)
  {
  }

  lemma PtrSizes(h: Obj, e: nat, i: nat)
    requires i < h.psize
    ensures ElemSize(h) != 0 && (e >= h.nelem ==> PtrPos(h, e, i) >= 8 + ElemSize(h) * h.nelem)
  {
    if e >= h.nelem {
      MulMono(h.nelem, e, ElemSize(h));
    }
  }

  lemma GrowWF(P: Pool, k: nat, n: nat)
    requires WF(P) && k < |P| && Head(P[k]).nelem <= n && ValidShape(Head(P[k]).(nelem := n))
    ensures WF(P[k := Grown(P[k], n)])
  {
    hide Head, Slot, ValidShape, Grown, WFObj;
    ObjAt(P, k);
    var b := P[k];
    assert SlotsOK(P, k);
    hide WF;
    GrownWF(b, n);
    forall e, i | 0 <= e < n && 0 <= i < Head(b).psize
      ensures Slot(Grown(b, n), e, i) == 0 || k < Slot(Grown(b, n), e, i) < |P|
    {
      GrownSlot(b, n, e, i);
    }
    ReplaceWF(P, k, Grown(b, n));
  }

  /** Growing the newest object extends the flat buffer at its end and rewrites one header word. */
  lemma SerGrowLast(P: Pool, n: nat)
    requires WF(P) && |P| > 0
    requires var h := Head(P[|P| - 1]); h.nelem <= n && ValidShape(h.(nelem := n))
    ensures Off(P, |P| - 1) + |P[|P| - 1]| == |Ser(P)|
    ensures var k := |P| - 1;
            var c := Grown(P[k], n);
            && |c| >= |P[k]| >= 8
            && Ser(P[k := c]) == Splice(Ser(P) + Zeros(|c| - |P[k]|), Off(P, k), LE(n, 4))
  {
    hide *;
    var k := |P| - 1;
    ObjAt(P, k);
    var b := P[k];
    var c := Grown(b, n);
    var Q := P[k := c];
    GrowWF(P, k, n);
    GrownWF(b, n);
    SerLast(P);
    SerLast(Q);
    SerExtend(P, Q, k);
    SerSnoc(P);
    SerSnoc(Q);
    GrownAsSplice(b, n);
    SpliceRight(SerPrefix(P, k), b + Zeros(|c| - |b|), 0, LE(n, 4));
    assert (SerPrefix(P, k) + b) + Zeros(|c| - |b|) == SerPrefix(P, k) + (b + Zeros(|c| - |b|));
  }

  lemma SerSnoc(P: Pool)
    requires |P| > 0
    ensures Ser(P) == SerPrefix(P, |P| - 1) + SerObj(P, |P| - 1)
    ensures |Ser(P)| == Off(P, |P| - 1) + |P[|P| - 1]|
  {
  }

  lemma ObjAt(P: Pool, k: nat)
    requires WF(P) && k < |P|
    ensures WFObj(P[k]) && |P[k]| >= 8
  {
  }

  lemma GrownAsSplice(b: seq<byte>, n: nat)
    requires |b| >= 8
    ensures |Grown(b, n)| >= |b|
    ensures Grown(b, n) == Splice(b + Zeros(|Grown(b, n)| - |b|), 0, LE(n, 4))
  {
    assert b + [] == b;
    assert Zeros(0) == [];
  }
}
