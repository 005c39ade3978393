/** The two backends behind one interface, and the proof that they agree: after any run of legal
    operations, serializing the builder's pool gives, byte for byte, the buffer of the direct writer. */
module Simulation {
  import opened Bytes
  import opened Wire
  import opened Pool
  import D = Decode

  /** One call of the writing interface; objects are named by their order of creation. */
  datatype Op =
    | OpCreate(shape: Obj)
    | OpGrow(n: nat)
    | OpInt(k: nat, e: nat, off: nat, sz: nat, v: int)
    | OpBit(k: nat, e: nat, bit: nat, val: bool)
    | OpPtr(k: nat, e: nat, i: nat, t: nat)
    | OpStr(k: nat, e: nat, i: nat, s: seq<byte>)

  /** The direct writer: one buffer, and the handles its client holds. */
  datatype Direct = Direct(buf: seq<byte>, handles: seq<Obj>)

  // ---------------------------------------------------------------- the direct writer

  /** Stores the distance from a pointer slot to an object header, in words. */
  function PutRel(buf: seq<byte>, r: Obj, i: nat, v: Obj): (b: seq<byte>)
    requires Readable(buf, r)
    ensures |b| == |buf|
  {
    if i >= r.psize then buf
    else Splice(buf, r.base + PtrOffs(r, i), LE((v.base - 8 - (r.base + PtrOffs(r, i))) / 4, 4))
  }

  /** A string object: its characters and a final NUL. */
  function StrShape(s: seq<byte>): Obj {
    Obj(8, |s| + 1, 1, 0)
  }

  /** Growing works only for the object that ends the buffer. */
  function DirectGrow(buf: seq<byte>, o: Obj, n: nat): (r: (seq<byte>, Obj))
  {
    var end := RoundUp(o.base + PayloadSize(o), 8);
    var newend := RoundUp(o.base + PayloadSize(o.(nelem := n)), 8);
    if end != |buf| || newend < end || o.base < 8 || o.base > |buf| then (buf, o)
    else (Splice(buf + Zeros(newend - end), o.base - 8, LE(n, 4)), o.(nelem := n))
  }

  ghost predicate HandlesOK(d: Direct) {
    forall k, e :: 0 <= k < |d.handles| && 0 <= e ==> Readable(d.buf, GetElem(d.handles[k], e))
  }

  ghost function StepDirect(d: Direct, op: Op): Direct
    requires HandlesOK(d)
  {
    match op
    case OpCreate(o) => DirectCreate(d, o)
    case OpGrow(n) =>
      if |d.handles| == 0 then d
      else
        var k := |d.handles| - 1;
        var (buf, o) := DirectGrow(d.buf, d.handles[k], n);
        Direct(buf, d.handles[k := o])
    case OpInt(k, e, off, sz, v) =>
      if k >= |d.handles| then d else d.(buf := PutInt(d.buf, GetElem(d.handles[k], e), off, sz, v))
    case OpBit(k, e, bit, val) =>
      if k >= |d.handles| then d else d.(buf := PutBit(d.buf, GetElem(d.handles[k], e), bit, val))
    case OpPtr(k, e, i, t) =>
      if k >= |d.handles| || t >= |d.handles| then d
      else d.(buf := PutRel(d.buf, GetElem(d.handles[k], e), i, d.handles[t]))
    case OpStr(k, e, i, s) =>
      if k >= |d.handles| then d
      else
        var c := DirectCreate(d, StrShape(s));
        var str := c.handles[|d.handles|];
        if str.base + |s| > |c.buf| then d
        else Direct(PutRel(Splice(c.buf, str.base, s), GetElem(d.handles[k], e), i, str), c.handles)
  }

  function DirectCreate(d: Direct, o: Obj): Direct {
    Direct(d.buf + NewObj(o), d.handles + [o.(base := |d.buf| + 8)])
  }

  // ---------------------------------------------------------------- the builder

  function StepPool(P: Pool, op: Op): Pool
    requires WF(P) && Legal(P, op)
  {
    match op
    case OpCreate(o) => Create(P, o)
    case OpGrow(n) => P[|P| - 1 := Grown(P[|P| - 1], n)]
    case OpInt(k, e, off, sz, v) =>
      ElemInObj(P[k], e);
      P[k := PutInt(P[k], GetElem(Head(P[k]), e), off, sz, v)]
    case OpBit(k, e, bit, val) =>
      ElemInObj(P[k], e);
      P[k := PutBit(P[k], GetElem(Head(P[k]), e), bit, val)]
    case OpPtr(k, e, i, t) =>
      SlotInside(P[k], e, i);
      Write(P, k, PtrPos(Head(P[k]), e, i), LE(t, 4))
    case OpStr(k, e, i, s) =>
      SlotInside(P[k], e, i);
      StrFits(s);
      Write(P + [Splice(NewObj(StrShape(s)), 8, s)], k, PtrPos(Head(P[k]), e, i), LE(|P|, 4))
  }

  /** What a client may ask for: shapes in range, growing only, pointers to later objects through
      existing slots.  Scalar writes are unrestricted. */
  predicate Legal(P: Pool, op: Op)
    requires WF(P)
  {
    match op
    case OpCreate(o) => ValidShape(o) && |P| + 1 < 0x8000_0000
    case OpGrow(n) =>
      |P| > 0 && Head(P[|P| - 1]).nelem <= n && ValidShape(Head(P[|P| - 1]).(nelem := n))
    case OpInt(k, e, off, sz, v) => k < |P| && sz in {1, 2, 4, 8}
    case OpBit(k, e, bit, val) => k < |P|
    case OpPtr(k, e, i, t) => k < t < |P| && e < Head(P[k]).nelem && i < Head(P[k]).psize
    case OpStr(k, e, i, s) =>
      && k < |P| && e < Head(P[k]).nelem && i < Head(P[k]).psize
      && |s| + 1 < U32 && |P| + 1 < 0x8000_0000
  }

  lemma ElemInObj(b: seq<byte>, e: nat)
    requires WFObj(b)
    ensures Readable(b, GetElem(Head(b), e))
    ensures var r := GetElem(Head(b), e);
            r.ssize > 0 ==> 8 <= r.base && r.base + r.ssize <= 8 + PayloadSize(Head(b)) <= |b|
    ensures forall x :: GetElem(Head(b), e).base <= x < GetElem(Head(b), e).base + GetElem(Head(b), e).ssize
              ==> !InPtr(Head(b), x)
  {
    hide PayloadSize, WFObj, InPtr, Head;
    ObjExtent(b);
    var h := Head(b);
    if e < h.nelem {
      if ElemSize(h) != 0 {
        PosInside(h, e, 0);
        ScalarRange(h, e);
      } else {
        NoPtrs(h);
      }
    }
  }

  lemma StrFits(s: seq<byte>)
    requires |s| + 1 < U32
    ensures ValidShape(StrShape(s)) && 8 + |s| + 1 <= |NewObj(StrShape(s))|
    ensures PayloadSize(StrShape(s)) == |s| + 1
  {
    RoundUpProps(8 + |s| + 1, 8);
  }

  // ---------------------------------------------------------------- agreement

  /** The direct writer's state is the flat image of the pool: same bytes, and handles that point
      right behind the header of the corresponding object. */
  ghost predicate Sim(P: Pool, d: Direct)
    requires WF(P)
  {
    && d.buf == Ser(P)
    && |d.handles| == |P|
    && (forall k :: 0 <= k < |P| ==> d.handles[k] == Head(P[k]).(base := Off(P, k) + 8))
  }

  lemma ElemShift(h: Obj, off: nat, e: nat)
    ensures var r := GetElem(h, e);
            GetElem(h.(base := h.base + off), e) == if e < h.nelem then r.(base := r.base + off) else NULL
  {
  }

  /** Element e of object k, as the two clients see it. */
  lemma SameElem(P: Pool, d: Direct, k: nat, e: nat)
    requires WF(P) && Sim(P, d) && k < |P|
    ensures Head(P[k]).base == 8
    ensures var r, q := GetElem(Head(P[k]), e), GetElem(d.handles[k], e);
            && Readable(d.buf, q) && Readable(P[k], r)
            && q == (if e < Head(P[k]).nelem then r.(base := Off(P, k) + r.base) else NULL)
            && (e >= Head(P[k]).nelem ==> r == NULL)
  {
    hide Head, Ser, Off, GetElem;
    ObjAt(P, k);
    ElemInObj(P[k], e);
    ElemShift(Head(P[k]), Off(P, k), e);
    SerAt(P, k);
    NullElem(Head(P[k]), e);
  }

  lemma NullElem(h: Obj, e: nat)
    ensures e >= h.nelem ==> GetElem(h, e) == NULL
  {
  }

  lemma SimHandles(P: Pool, d: Direct)
    requires WF(P) && Sim(P, d)
    ensures HandlesOK(d)
  {
    forall k, e | 0 <= k < |d.handles| && 0 <= e
      ensures Readable(d.buf, GetElem(d.handles[k], e))
    {
      SameElem(P, d, k, e);
    }
  }

  /** Handles keep their meaning when an object is rewritten without changing its header or size. */
  lemma SimAfterWrite(P: Pool, d: Direct, k: nat, b: seq<byte>, buf: seq<byte>)
    requires WF(P) && Sim(P, d) && k < |P| && |b| == |P[k]| && Head(b) == Head(P[k])
    requires WF(P[k := b]) && buf == Ser(P[k := b])
    ensures Sim(P[k := b], d.(buf := buf))
  {
    hide Ser, Head, Off, WF;
    var Q := P[k := b];
    forall j | 0 <= j < |Q|
      ensures d.handles[j] == Head(Q[j]).(base := Off(Q, j) + 8)
    {
      OffAgree(P, Q, j);
    }
  }

  lemma SimCreate(P: Pool, d: Direct, o: Obj)
    requires WF(P) && Sim(P, d) && ValidShape(o) && |P| + 1 < 0x8000_0000
    ensures WF(Create(P, o))
    ensures Sim(Create(P, o), DirectCreate(d, o))
  {
    hide Ser, Head, NewObj, WF, ValidShape;
    CreateWF(P, o);
    SerCreate(P, o);
    NewObjWF(o);
    SimCreated(P, d, o);
  }

  lemma SimCreated(P: Pool, d: Direct, o: Obj)
    requires WF(P) && Sim(P, d) && WF(Create(P, o)) && Head(NewObj(o)) == o.(base := 8)
    requires Ser(Create(P, o)) == Ser(P) + NewObj(o)
    ensures Sim(Create(P, o), DirectCreate(d, o))
  {
    hide Ser, Head, NewObj, WF, Off;
    var Q := Create(P, o);
    var c := DirectCreate(d, o);
    forall j | 0 <= j < |Q|
      ensures c.handles[j] == Head(Q[j]).(base := Off(Q, j) + 8)
    {
      OffAgree(P, Q, if j < |P| then j else |P|);
    }
  }

  /** Where growing finds the end of the newest object. */
  lemma EndOfLast(off: nat, h: Obj, n: nat)
    requires off % 8 == 0 && h.base == 8
    ensures RoundUp(off + 8 + PayloadSize(h.(base := off + 8, nelem := n)), 8) == off + ObjSize(h.(nelem := n))
  {
    SizeOfBase(h.(nelem := n), off + 8);
    hide PayloadSize;
    assert h.(nelem := n).(base := off + 8) == h.(base := off + 8, nelem := n);
    RoundUpShift(off, 8 + PayloadSize(h.(nelem := n)));
  }

  lemma RoundUpShift(off: nat, x: nat)
    requires off % 8 == 0
    ensures RoundUp(off + x, 8) == off + RoundUp(x, 8)
  {
    assert off + x + 7 == 8 * (off / 8) + (x + 7);
  }

  lemma SimGrow(P: Pool, d: Direct, n: nat)
    requires WF(P) && Sim(P, d) && Legal(P, OpGrow(n))
    ensures WF(StepPool(P, OpGrow(n))) && HandlesOK(d)
    ensures Sim(StepPool(P, OpGrow(n)), StepDirect(d, OpGrow(n)))
  {
    hide Ser, Head, WF, ValidShape, Grown, DirectGrow, Off, ObjSize;
    SimHandles(P, d);
    GrowDirect(P, d, n);
    var k := |P| - 1;
    var b := P[k];
    var o := d.handles[k].(nelem := n);
    var buf := Splice(d.buf + Zeros(ObjSize(Head(b).(nelem := n)) - |b|), Off(P, k), LE(n, 4));
    assert StepDirect(d, OpGrow(n)) == Direct(buf, d.handles[k := o]);
    hide StepDirect, Splice;
    GrowWF(P, k, n);
    GrownWF(b, n);
    SerGrowLast(P, n);
    SimGrown(P, d, n, Direct(buf, d.handles[k := o]));
  }

  lemma SimGrown(P: Pool, d: Direct, n: nat, c: Direct)
    requires WF(P) && Sim(P, d) && |P| > 0 && |P[|P| - 1]| >= 8
    requires var k := |P| - 1;
             && WF(P[k := Grown(P[k], n)]) && c.buf == Ser(P[k := Grown(P[k], n)])
             && Head(Grown(P[k], n)) == Head(P[k]).(nelem := n)
             && c.handles == d.handles[k := d.handles[k].(nelem := n)]
    ensures Sim(P[|P| - 1 := Grown(P[|P| - 1], n)], c)
  {
    hide Ser, Head, WF, Grown, Off;
    var k := |P| - 1;
    var Q := P[k := Grown(P[k], n)];
    forall j | 0 <= j < |Q|
      ensures c.handles[j] == Head(Q[j]).(base := Off(Q, j) + 8)
    {
      OffAgree(P, Q, j);
    }
  }

  /** The direct writer leaves every object but the newest as it is: there is no room behind it. */
  lemma OnlyLastGrows(P: Pool, d: Direct, k: nat, n: nat)
    requires WF(P) && Sim(P, d) && k + 1 < |P|
    ensures DirectGrow(d.buf, d.handles[k], n) == (d.buf, d.handles[k])
  {
    hide Ser, Head, WF, Off, ObjSize, PayloadSize, RoundUp;
    ObjAt(P, k);
    ObjAt(P, k + 1);
    SizeOfWF(P[k]);
    AllAligned(P, k);
    var h := Head(P[k]);
    EndOfLast(Off(P, k), h, h.nelem);
    assert d.handles[k] == h.(base := Off(P, k) + 8) && h.(nelem := h.nelem) == h;
    OffMono(P, k, k + 1);
    OffMono(P, k + 1, |P|);
    assert |d.buf| == Off(P, |P|);
  }

  /** What the direct writer's resize does to the newest object. */
  lemma GrowDirect(P: Pool, d: Direct, n: nat)
    requires WF(P) && Sim(P, d) && Legal(P, OpGrow(n))
    ensures var k := |P| - 1;
            var h := Head(P[k]);
            && WFObj(P[k]) && ObjSize(h.(nelem := n)) >= |P[k]| >= 8 && Off(P, k) + |P[k]| == |d.buf|
            && DirectGrow(d.buf, d.handles[k], n)
               == (Splice(d.buf + Zeros(ObjSize(h.(nelem := n)) - |P[k]|), Off(P, k), LE(n, 4)),
                   d.handles[k].(nelem := n))
  {
    hide Ser, Head, WF, ValidShape, Off, ObjSize, PayloadSize, RoundUp;
    var k := |P| - 1;
    var h := Head(P[k]);
    ObjAt(P, k);
    assert |P[k]| == ObjSize(h) by { SizeOfWF(P[k]); }
    AllAligned(P, k);
    EndOfLast(Off(P, k), h, n);
    EndOfLast(Off(P, k), h, h.nelem);
    PayloadMono(h, n);
    SerSnoc(P);
    assert d.handles[k] == h.(base := Off(P, k) + 8);
    assert h.(nelem := h.nelem) == h;
  }

  lemma AllAligned(P: Pool, k: nat)
    requires WF(P) && k <= |P|
    ensures Off(P, k) % 8 == 0
  {
    OffAligned(P, k);
  }

  /** Rewriting scalar bytes of one element. */
  lemma SimScalar(P: Pool, d: Direct, k: nat, e: nat, a: nat, w: seq<byte>, x: nat, y: nat)
    requires WF(P) && Sim(P, d) && k < |P|
    requires 0 < |w| && a + |w| <= GetElem(Head(P[k]), e).ssize
    requires x == GetElem(Head(P[k]), e).base + a && y == GetElem(d.handles[k], e).base + a
    ensures x + |w| <= |P[k]|
    ensures y + |w| <= |d.buf|
    ensures WF(Write(P, k, x, w))
    ensures Sim(Write(P, k, x, w), d.(buf := Splice(d.buf, y, w)))
  {
    hide Ser, Head, Off, GetElem, WFObj, PayloadSize, InPtr, Splice;
    SameElem(P, d, k, e);
    ObjAt(P, k);
    ElemInObj(P[k], e);
    WriteScalars(P, k, x, w);
    hide WF;
    SimAfterWrite(P, d, k, Splice(P[k], x, w), Splice(d.buf, Off(P, k) + x, w));
  }

  lemma SimInt(P: Pool, d: Direct, op: Op)
    requires WF(P) && Sim(P, d) && op.OpInt? && Legal(P, op)
    ensures WF(StepPool(P, op)) && HandlesOK(d) && Sim(StepPool(P, op), StepDirect(d, op))
  {
    hide WF, Ser, Head, Off, GetElem;
    SimHandles(P, d);
    var OpInt(k, e, off, sz, v) := op;
    SameElem(P, d, k, e);
    if off + sz <= GetElem(Head(P[k]), e).ssize {
      SimScalar(P, d, k, e, off, LE(v, sz), GetElem(Head(P[k]), e).base + off, GetElem(d.handles[k], e).base + off);
    } else {
      assert P[k := P[k]] == P;
    }
  }

  lemma SimBit(P: Pool, d: Direct, op: Op)
    requires WF(P) && Sim(P, d) && op.OpBit? && Legal(P, op)
    ensures WF(StepPool(P, op)) && HandlesOK(d) && Sim(StepPool(P, op), StepDirect(d, op))
  {
    hide WF, Ser, Head, Off, GetElem, PutBit, HandlesOK;
    SimHandles(P, d);
    SameElem(P, d, op.k, op.e);
    hide Readable;
    SimBitAt(P, d, op.k, op.e, op.bit, op.val);
  }

  lemma SimBitAt(P: Pool, d: Direct, k: nat, e: nat, bit: nat, val: bool)
    requires WF(P) && Sim(P, d) && k < |P|
    requires Readable(P[k], GetElem(Head(P[k]), e)) && Readable(d.buf, GetElem(d.handles[k], e))
    ensures WF(P[k := PutBit(P[k], GetElem(Head(P[k]), e), bit, val)])
    ensures Sim(P[k := PutBit(P[k], GetElem(Head(P[k]), e), bit, val)],
                d.(buf := PutBit(d.buf, GetElem(d.handles[k], e), bit, val)))
  {
    hide WF, Ser, Head, Off, GetElem, PutBit, NewByte, Splice, Readable;
    var r, q := GetElem(Head(P[k]), e), GetElem(d.handles[k], e);
    SameElem(P, d, k, e);
    var a := bit / 8;
    if a < r.ssize {
      SameByte(P, d, k, e, a);
      PutBitAsSplice(P[k], r, bit, val);
      PutBitAsSplice(d.buf, q, bit, val);
      hide Sim;
      SimScalar(P, d, k, e, a, [NewByte(P[k][r.base + a], bit % 8, val)], r.base + a, q.base + a);
    } else {
      PutBitBeyond(P[k], r, bit, val);
      PutBitBeyond(d.buf, q, bit, val);
      assert P[k := P[k]] == P;
    }
  }

  function NewByte(b: byte, j: nat, v: bool): byte
    requires j < 8
  {
    Pow2Byte();
    SetBitSpec(b, j, v, 0, 8);
    SetBit(b, j, v)
  }

  lemma PutBitAsSplice(buf: seq<byte>, r: Obj, bit: nat, v: bool)
    requires Readable(buf, r) && bit / 8 < r.ssize
    ensures r.base + bit / 8 + 1 <= |buf|
    ensures PutBit(buf, r, bit, v)
         == Splice(buf, r.base + bit / 8, [NewByte(buf[r.base + bit / 8], bit % 8, v)])
  {
  }

  lemma PutBitBeyond(buf: seq<byte>, r: Obj, bit: nat, v: bool)
    requires Readable(buf, r) && bit / 8 >= r.ssize
    ensures PutBit(buf, r, bit, v) == buf
  {
  }

  /** A scalar byte reads the same through both backends. */
  lemma SameByte(P: Pool, d: Direct, k: nat, e: nat, a: nat)
    requires WF(P) && Sim(P, d) && k < |P| && a < GetElem(Head(P[k]), e).ssize
    ensures var x := GetElem(Head(P[k]), e).base + a;
            var y := GetElem(d.handles[k], e).base + a;
            x < |P[k]| && y < |d.buf| && d.buf[y] == P[k][x]
  {
    hide Head, Off, GetElem, WFObj, PayloadSize, InPtr;
    SameElem(P, d, k, e);
    ObjAt(P, k);
    ElemInObj(P[k], e);
    var x := GetElem(Head(P[k]), e).base + a;
    hide Ser;
    SerByteAt(P, k, x);
    assert !InPtr(Head(P[k]), x);
  }

  /** Linking object k's slot to the object at index t, in both backends. */
  lemma SimLink(P: Pool, d: Direct, k: nat, e: nat, i: nat, t: nat)
    requires WF(P) && Sim(P, d) && k < t < |P| && e < Head(P[k]).nelem && i < Head(P[k]).psize
    ensures Readable(d.buf, GetElem(d.handles[k], e)) && PtrPos(Head(P[k]), e, i) + 4 <= |P[k]|
    ensures var Q := Write(P, k, PtrPos(Head(P[k]), e, i), LE(t, 4));
            WF(Q) && Sim(Q, d.(buf := PutRel(d.buf, GetElem(d.handles[k], e), i, d.handles[t])))
  {
    hide Head, Off, Ser, PtrPos, WF;
    SameElem(P, d, k, e);
    WritePtr(P, k, e, i, t);
    ElemOfPtr(Head(P[k]), e, i);
    var p := PtrPos(Head(P[k]), e, i);
    hide GetElem;
    SimAfterWrite(P, d, k, Splice(P[k], p, LE(t, 4)), Ser(Write(P, k, p, LE(t, 4))));
  }

  lemma ElemOfPtr(h: Obj, e: nat, i: nat)
    requires e < h.nelem && i < h.psize && h.base == 8
    ensures GetElem(h, e).base + PtrOffs(GetElem(h, e), i) == PtrPos(h, e, i) && GetElem(h, e).psize == h.psize
  {
  }

  lemma SimPtr(P: Pool, d: Direct, op: Op)
    requires WF(P) && Sim(P, d) && op.OpPtr? && Legal(P, op)
    ensures WF(StepPool(P, op)) && HandlesOK(d) && Sim(StepPool(P, op), StepDirect(d, op))
  {
    hide WF, Ser, Head, Off, GetElem, PtrPos;
    SimHandles(P, d);
    SimLink(P, d, op.k, op.e, op.i, op.t);
  }

  lemma SimStr(P: Pool, d: Direct, op: Op)
    requires WF(P) && Sim(P, d) && op.OpStr? && Legal(P, op)
    ensures WF(StepPool(P, op)) && HandlesOK(d) && Sim(StepPool(P, op), StepDirect(d, op))
  {
    hide WF, Ser, Head, Off, GetElem, PtrPos, NewObj, ValidShape;
    SimHandles(P, d);
    var OpStr(k, e, i, s) := op;
    var o := StrShape(s);
    StrFits(s);
    SimCreate(P, d, o);
    var P1, d1 := Create(P, o), DirectCreate(d, o);
    FillRoom(P1, d1, s, |P|);
    FillStr(P1, d1, s, |P|, d1.handles[|P|].base);
    var P2 := Write(P1, |P|, 8, s);
    var d2 := d1.(buf := Splice(d1.buf, d1.handles[|P|].base, s));
    assert P2 == P + [Splice(NewObj(o), 8, s)];
    SimLink(P2, d2, k, e, i, |P|);
  }

  /** Copying the characters into a fresh string object. */
  lemma FillStr(P: Pool, d: Direct, s: seq<byte>, k: nat, y: nat)
    requires WF(P) && Sim(P, d) && |P| == k + 1 && |s| + 1 < U32
    requires P[k] == NewObj(StrShape(s)) && 8 + |s| <= |P[k]|
    requires y == d.handles[k].base && y + |s| <= |d.buf|
    ensures WF(Write(P, k, 8, s)) && Sim(Write(P, k, 8, s), d.(buf := Splice(d.buf, y, s)))
  {
    hide Ser, Head, Off, WF, NewObj, InPtr, SerObj, PayloadSize, ValidShape, Splice;
    StrFits(s);
    NewObjWF(StrShape(s));
    NoPtrs(Head(P[k]));
    SizeOfBase(StrShape(s), 8);
    WriteScalars(P, k, 8, s);
    SimAfterWrite(P, d, k, Splice(P[k], 8, s), Splice(d.buf, Off(P, k) + 8, s));
  }

  /** The string fits into its object, in both backends. */
  lemma FillRoom(P: Pool, d: Direct, s: seq<byte>, k: nat)
    requires WF(P) && Sim(P, d) && |P| == k + 1 && |s| + 1 < U32 && P[k] == NewObj(StrShape(s))
    ensures 8 + |s| <= |P[k]| && d.handles[k].base + |s| <= |d.buf|
  {
    hide Ser, Head, Off, WF, NewObj, SerObj, PayloadSize, ValidShape;
    StrFits(s);
    SerAt(P, k);
  }

  lemma NoPtrs(h: Obj)
    requires h.psize == 0
    ensures forall x :: !InPtr(h, x)
  {
  }

  /** Every legal operation keeps the two backends in agreement. */
  lemma StepSim(P: Pool, d: Direct, op: Op)
    requires WF(P) && Sim(P, d) && Legal(P, op)
    ensures WF(StepPool(P, op)) && HandlesOK(d) && Sim(StepPool(P, op), StepDirect(d, op))
  {
    hide WF, Sim;
    SimHandles(P, d);
    match op
    case OpCreate(o) => SimCreate(P, d, o);
    case OpGrow(n) => SimGrow(P, d, n);
    case OpInt(_, _, _, _, _) => SimInt(P, d, op);
    case OpBit(_, _, _, _) => SimBit(P, d, op);
    case OpPtr(_, _, _, _) => SimPtr(P, d, op);
    case OpStr(_, _, _, _) => SimStr(P, d, op);
  }

  // ---------------------------------------------------------------- whole runs

  /** The direct writer's state that corresponds to a pool. */
  function Image(P: Pool): Direct
    requires WF(P)
  {
    Direct(Ser(P), seq(|P|, k requires 0 <= k < |P| => Head(P[k]).(base := Off(P, k) + 8)))
  }

  /** Every legal step keeps the pool well-formed: one object per buffer, ids in range, pointers to
      later objects only. */
  lemma StepWF(P: Pool, op: Op)
    requires WF(P) && Legal(P, op)
    ensures WF(StepPool(P, op))
  {
    hide WF, StepPool, StepDirect, Ser, Head, Off;
    StepSim(P, Image(P), op);
  }

  function RunPool(P: Pool, ops: seq<Op>): Pool
    requires WF(P) && LegalRun(P, ops)
    decreases |ops|
  {
    if ops == [] then P
    else
      StepWF(P, ops[0]);
      RunPool(StepPool(P, ops[0]), ops[1..])
  }

  predicate LegalRun(P: Pool, ops: seq<Op>)
    requires WF(P)
    decreases |ops|
  {
    ops == []
    || (Legal(P, ops[0])
        && (StepWF(P, ops[0]);
            LegalRun(StepPool(P, ops[0]), ops[1..])))
  }

  ghost function RunDirect(d: Direct, ops: seq<Op>): Direct
    decreases |ops|
  {
    if ops == [] || !HandlesOK(d) then d else RunDirect(StepDirect(d, ops[0]), ops[1..])
  }

  lemma {:induction false} RunSim(P: Pool, d: Direct, ops: seq<Op>)
    requires WF(P) && Sim(P, d) && LegalRun(P, ops)
    ensures WF(RunPool(P, ops)) && Sim(RunPool(P, ops), RunDirect(d, ops))
    decreases |ops|
  {
    hide WF, Sim, StepPool, StepDirect, Legal, HandlesOK;
    if ops != [] {
      StepSim(P, d, ops[0]);
      RunSim(StepPool(P, ops[0]), StepDirect(d, ops[0]), ops[1..]);
    }
  }

  /** The two backends agree: after any legal run from empty, flattening the pool yields the direct
      writer's buffer, and every handle held by its client designates the object created in that call. */
  lemma BackendsAgree(ops: seq<Op>)
    requires LegalRun([], ops)
    ensures var P, d := RunPool([], ops), RunDirect(Direct([], []), ops);
            && WF(P)
            && d.buf == Ser(P)
            && |d.handles| == |P|
            && (forall k :: 0 <= k < |P| ==> d.handles[k] == Head(P[k]).(base := Off(P, k) + 8))
            && (forall k :: 0 <= k < |P| ==> d.handles[k] == ObjInit(d.buf, Off(P, k)))
  {
    RunSim([], Direct([], []), ops);
    var P := RunPool([], ops);
    hide WF, Ser, Off, Head, ObjInit, RunPool, RunDirect, LegalRun;
    forall k | 0 <= k < |P|
      ensures ObjInit(Ser(P), Off(P, k)) == Head(P[k]).(base := Off(P, k) + 8)
    {
      D.SerHead(P, k);
    }
  }
}
