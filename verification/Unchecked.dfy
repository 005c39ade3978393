/** The builder's put_ptr does not check its slot (lib/pool.c:70-81): what stores through slots that do not
    exist do to the agreement of the two writers. */
module Unchecked {
  import opened Bytes
  import opened Wire
  import opened Pool
  import opened Simulation
  import D = Decode

  // ---------------------------------------------------------------- buffers with their records

  /** The buffers of a builder, each a record of 16 bytes and its object: the address of the pool, the
      offset that the first pass of serialization sets, and the id. */
  type Bufs = seq<seq<byte>>

  function Objects(R: Bufs): Pool {
    seq(|R|, j requires 0 <= j < |R| => if |R[j]| >= 16 then R[j][16..] else [])
  }

  ghost predicate RecordOK(b: seq<byte>, pool: seq<byte>, id: nat) {
    |b| >= 16 && b[..8] == pool && UnLE(b[12..16]) == id
  }

  /** The records are intact, the objects well-formed, and the direct writer has the same message. */
  ghost predicate InStep(R: Bufs, pool: seq<byte>, d: Direct) {
    && |pool| == 8
    && (forall j :: 0 <= j < |R| ==> RecordOK(R[j], pool, j))
    && WF(Objects(R)) && Sim(Objects(R), d)
  }

  /** Fresh records in front of the objects of a pool. */
  function WithRecords(P: Pool, pool: seq<byte>): Bufs {
    seq(|P|, j requires 0 <= j < |P| => pool + LE(0, 4) + LE(j, 4) + P[j])
  }

  /** Every state that legal runs of the two writers reach is one of these. */
  lemma RecordsInStep(P: Pool, pool: seq<byte>, d: Direct)
    requires WF(P) && Sim(P, d) && |pool| == 8
    ensures Objects(WithRecords(P, pool)) == P && InStep(WithRecords(P, pool), pool, d)
  {
    hide WF, Sim;
    FewObjects(P);
    var R := WithRecords(P, pool);
    forall j | 0 <= j < |P|
      ensures RecordOK(R[j], pool, j) && R[j][16..] == P[j]
    {
      assert R[j][12..16] == LE(j, 4);
      UnLEofLE(j, 4);
      Pow256Values();
    }
    assert Objects(R) == P;
  }

  /** Element e of object k as a client of the builder holds it; null if there is none. */
  function ElemAt(R: Bufs, k: nat, e: nat): Obj
    requires k < |R| && |R[k]| >= 24
  {
    GetElem(HeaderAt(R[k], 16), e)
  }

  function SlotAddress(R: Bufs, k: nat, e: nat, i: nat): nat
    requires k < |R| && |R[k]| >= 24
  {
    var r := ElemAt(R, k, e);
    r.base + PtrOffs(r, i)
  }

  /** A store ends in new buffers, or fails the bounds check. */
  datatype Outcome = Done(bufs: Bufs) | Failed

  /** put_ptr: stores id t wherever the slot would be. */
  function Store(R: Bufs, k: nat, e: nat, i: nat, t: nat): Outcome
    requires k < |R| && |R[k]| >= 24
  {
    var a := SlotAddress(R, k, e, i);
    if a + 4 > |R[k]| then Failed else Done(R[k := Splice(R[k], a, LE(t, 4))])
  }

  lemma BufAt(R: Bufs, pool: seq<byte>, d: Direct, k: nat)
    requires InStep(R, pool, d) && k < |R|
    ensures RecordOK(R[k], pool, k) && |R[k]| >= 24 && Objects(R)[k] == R[k][16..] && WFObj(Objects(R)[k])
    ensures HeaderAt(R[k], 16) == Head(Objects(R)[k]).(base := 24)
  {
    hide WFObj, Sim;
    ObjAt(Objects(R), k);
    assert R[k][16..][0..8] == R[k][16..24];
  }

  /** Through a slot that does not exist, of an element that exists or not, the direct writer stores
      nothing.  The builder's store succeeds and keeps the two in step if and only if it stays inside the
      buffer, and overwrites either the recorded offset, which the serializer sets anew, or bytes that are
      the same already. */
  lemma UncheckedSlotIff(R: Bufs, pool: seq<byte>, d: Direct, k: nat, e: nat, i: nat, t: nat)
    requires InStep(R, pool, d) && D.Fits(Objects(R)) && k < |R| && t < |R|
    requires |R[k]| >= 24 && i >= ElemAt(R, k, e).psize
    ensures |d.handles| == |R| && Readable(d.buf, GetElem(d.handles[k], e))
    ensures PutRel(d.buf, GetElem(d.handles[k], e), i, d.handles[t]) == d.buf
    ensures var a, r := SlotAddress(R, k, e, i), Store(R, k, e, i, t);
            r.Done? && InStep(r.bufs, pool, d)
            <==> a + 4 <= |R[k]| && (a == 8 || R[k][a..a + 4] == LE(t, 4))
  {
    hide WF, Sim, Head, GetElem, HeaderAt, PutRel, Readable, WFObj, Splice, RecordOK, D.Fits, Objects;
    BufAt(R, pool, d, k);
    var P := Objects(R);
    SameSize(R, d);
    SameElem(P, d, k, e);
    var h := Head(P[k]);
    ElemShift(h, 16, e);
    var a := SlotAddress(R, k, e, i);
    SlotPlace(h, e, i, a);
    DirectIgnores(d.buf, GetElem(d.handles[k], e), i, d.handles[t]);
    if a + 4 <= |R[k]| {
      var Q := R[k := Splice(R[k], a, LE(t, 4))];
      if a == 8 {
        OffsetStore(R, pool, d, k, t);
      } else if R[k][a..a + 4] == LE(t, 4) {
        SpliceSame(R[k], a, LE(t, 4));
        assert Q == R;
      } else if InStep(Q, pool, d) {
        if a < 16 {
          RecordStore(R, pool, d, k, a, t);
        } else {
          WordAligned(P[k]);
          ObjectStore(R, pool, d, k, a, t);
        }
      }
    }
  }

  lemma SameSize(R: Bufs, d: Direct)
    requires WF(Objects(R)) && Sim(Objects(R), d)
    ensures |d.handles| == |R| == |Objects(R)|
  {
  }

  /** Where the word lies: in the record or the header if there is no such element, and behind the header
      if there is. */
  lemma SlotPlace(h: Obj, e: nat, i: nat, a: nat)
    requires h.base == 8
    requires var r := GetElem(h.(base := 24), e); i >= r.psize && a == r.base + PtrOffs(r, i)
    ensures a < 24 ==> a % 4 == 0
    ensures h.psize > 0 && h.ssize % 4 == 0 ==> a % 4 == 0
    ensures i >= GetElem(h, e).psize
  {
    ElemShift(h, 16, e);
    NullElem(h, e);
    hide GetElem;
    if e < h.nelem {
      BeyondPsize(h, e, i, a - 16);
    }
  }

  lemma SpliceSame(b: seq<byte>, x: nat, w: seq<byte>)
    requires x + |w| <= |b| && b[x..x + |w|] == w
    ensures Splice(b, x, w) == b
  {
    assert b == b[..x] + b[x..x + |w|] + b[x + |w|..];
  }

  /** Storing over the recorded offset. */
  lemma OffsetStore(R: Bufs, pool: seq<byte>, d: Direct, k: nat, t: nat)
    requires InStep(R, pool, d) && k < |R| && |R[k]| >= 24
    ensures InStep(R[k := Splice(R[k], 8, LE(t, 4))], pool, d)
  {
    hide WF, Sim;
    var Q := R[k := Splice(R[k], 8, LE(t, 4))];
    assert RecordOK(R[k], pool, k);
    assert Q[k][16..] == R[k][16..] && Q[k][..8] == R[k][..8] && Q[k][12..16] == R[k][12..16];
    assert Objects(Q) == Objects(R);
    forall j | 0 <= j < |Q|
      ensures RecordOK(Q[j], pool, j)
    {
      assert RecordOK(R[j], pool, j);
    }
  }

  /** A store over the pool's address or the id is noticed. */
  lemma RecordStore(R: Bufs, pool: seq<byte>, d: Direct, k: nat, a: nat, t: nat)
    requires InStep(R, pool, d) && k < |R| && |R[k]| >= 24 && a in {0, 4, 12}
    requires InStep(R[k := Splice(R[k], a, LE(t, 4))], pool, d)
    ensures R[k][a..a + 4] == LE(t, 4)
  {
    hide WF, Sim;
    var Q := R[k := Splice(R[k], a, LE(t, 4))];
    assert RecordOK(R[k], pool, k) && RecordOK(Q[k], pool, k);
    assert Q[k][a..a + 4] == LE(t, 4) by { Spliced(R[k], a, LE(t, 4)); }
    if a == 12 {
      LEofUnLE(Q[k][12..16]);
      LEofUnLE(R[k][12..16]);
    } else {
      assert Q[k][..8][a..a + 4] == Q[k][a..a + 4] && R[k][..8][a..a + 4] == R[k][a..a + 4];
    }
  }

  /** A store over header, elements or padding is noticed. */
  lemma ObjectStore(R: Bufs, pool: seq<byte>, d: Direct, k: nat, a: nat, t: nat)
    requires InStep(R, pool, d) && D.Fits(Objects(R)) && k < |R| && 16 <= a && a + 4 <= |R[k]| && t < |R|
    requires Head(Objects(R)[k]).psize > 0 ==> a % 4 == 0
    requires InStep(R[k := Splice(R[k], a, LE(t, 4))], pool, d)
    ensures R[k][a..a + 4] == LE(t, 4)
  {
    hide WF, Sim, Head, D.Fits, RecordOK, WFObj;
    var P, x := Objects(R), a - 16;
    var Q := R[k := Splice(R[k], a, LE(t, 4))];
    assert Q[k][16..] == Splice(P[k], x, LE(t, 4)) by { SpliceTail(R[k], 16, x, LE(t, 4)); }
    assert |Q[k]| == |R[k]|;
    hide Splice;
    assert Objects(Q) == Write(P, k, x, LE(t, 4));
    SameImage(P, d, k, x, t);
    SliceTail(R[k], 16, x, 4);
  }

  lemma SliceTail(b: seq<byte>, m: nat, x: nat, n: nat)
    requires m + x + n <= |b|
    ensures b[m..][x..x + n] == b[m + x..m + x + n]
  {
  }

  lemma SpliceTail(b: seq<byte>, m: nat, x: nat, w: seq<byte>)
    requires m + x + |w| <= |b|
    ensures Splice(b, m + x, w)[m..] == Splice(b[m..], x, w)
  {
  }

  /** A well-formed pool with the same flat image holds the same bytes. */
  lemma SameImage(P: Pool, d: Direct, k: nat, x: nat, t: nat)
    requires WF(P) && D.Fits(P) && Sim(P, d) && k < |P| && t < |P| && x + 4 <= |P[k]|
    requires Head(P[k]).psize > 0 ==> x % 4 == 0
    requires WF(Write(P, k, x, LE(t, 4))) && Sim(Write(P, k, x, LE(t, 4)), d)
    ensures P[k][x..x + 4] == LE(t, 4)
  {
    hide WF, Head, Off, WFObj, SerByte, PayloadSize, D.Fits, InPtr, Ser;
    var Q := Write(P, k, x, LE(t, 4));
    assert Ser(P) == Ser(Q);
    ObjAt(P, k);
    SpliceAt(P[k], x, LE(t, 4));
    forall y | 0 <= y < |P[k]|
      ensures SerByte(P, k, y) == SerByte(Q, k, y)
    {
      SerByteAt(P, k, y);
      SerByteAt(Q, k, y);
      OffAgree(P, Q, k);
    }
    assert Head(Q[k]) == Head(P[k]) by { SameHeader(P, Q, k); }
    assert SameBytes(P, Q, k);
    forall y | x <= y < x + 4
      ensures P[k][y] == LE(t, 4)[y - x]
    {
      if InPtr(Head(P[k]), y) {
        SameSlotImage(P, k, x, t, y);
      } else {
        assert Q[k][y] == LE(t, 4)[y - x];
        ScalarImage(P, Q, k, y);
      }
    }
  }

  lemma SameHeader(P: Pool, Q: Pool, k: nat)
    requires k < |P| == |Q| && |P[k]| == |Q[k]| >= 8
    requires forall y :: 0 <= y < |P[k]| ==> SerByte(P, k, y) == SerByte(Q, k, y)
    ensures Head(Q[k]) == Head(P[k])
  {
    hide WordStart, ElemSize, Rel;
    assert forall y :: 0 <= y < 8 ==> SerByte(P, k, y) == P[k][y] && SerByte(Q, k, y) == Q[k][y];
    assert P[k][0..8] == Q[k][0..8];
  }

  lemma ScalarImage(P: Pool, Q: Pool, k: nat, y: nat)
    requires k < |P| == |Q| && y < |P[k]| == |Q[k]| && Head(Q[k]) == Head(P[k]) && !InPtr(Head(P[k]), y)
    requires SerByte(P, k, y) == SerByte(Q, k, y)
    ensures P[k][y] == Q[k][y]
  {
    hide Head, InPtr, WordStart, Rel;
  }

  lemma SameSlotImage(P: Pool, k: nat, x: nat, t: nat, y: nat)
    requires WF(P) && D.Fits(P) && k < |P| && t < |P| && x <= y < x + 4 <= |P[k]|
    requires Head(P[k]).psize > 0 ==> x % 4 == 0
    requires InPtr(Head(P[k]), y) && SameBytes(P, Write(P, k, x, LE(t, 4)), k)
    requires WF(Write(P, k, x, LE(t, 4))) && Head(Write(P, k, x, LE(t, 4))[k]) == Head(P[k])
    ensures P[k][y] == LE(t, 4)[y - x]
  {
    hide WF, Head, Off, WFObj, SerByte, PayloadSize, D.Fits, InPtr, WordStart, PtrPos, SameBytes, Rel, Word, Splice;
    ObjAt(P, k);
    var h, Q := Head(P[k]), Write(P, k, x, LE(t, 4));
    var e, i := PtrByteSlot(h, y);
    SlotInside(P[k], e, i);
    assert h.psize > 0;
    assert x == PtrPos(h, e, i) by { SameMultiple(x, PtrPos(h, e, i), y); }
    FewObjects(P);
    WordAfter(P[k], x, x, t);
    assert D.Fits(Q) by { SameTotal(P, Q); }
    SameRel(P, Q, k, e, i, x);
    D.RelExact(P, k, e, i);
    D.RelExact(Q, k, e, i);
    OffAgree(P, Q, k);
    if t != 0 {
      OffAgree(P, Q, t);
      SameTarget(P, k, e, i, t);
    }
    WordBytes(P[k], x, t, y);
  }

  /** The agreement needs the slot to exist.  For a slot beyond the pointer part the direct writer does
      nothing, but the builder does not check it: in a list of scalars it overwrites the next element. */
  lemma UncheckedSlotOverwrites(P: Pool, d: Direct, k: nat, e: nat, t: nat, x: nat)
    requires WF(P) && Sim(P, d) && k < |P| && t < |P|
    requires Head(P[k]).psize == 0 && Head(P[k]).ssize >= 4 && e + 1 < Head(P[k]).nelem
    requires x == GetElem(Head(P[k]), e).base + PtrOffs(GetElem(Head(P[k]), e), 0)
    ensures Readable(d.buf, GetElem(d.handles[k], e))
    ensures PutRel(d.buf, GetElem(d.handles[k], e), 0, d.handles[t]) == d.buf
    ensures x + 4 <= |P[k]|
    ensures WF(Write(P, k, x, LE(t, 4)))
    ensures Head(Write(P, k, x, LE(t, 4))[k]) == Head(P[k])
    ensures UnLE(D.PoolScalar(Write(P, k, x, LE(t, 4))[k], e + 1)[..4]) == t
  {
    hide Ser, Head, Off, WFObj, Pos, GetElem, InPtr, Splice;
    SameElem(P, d, k, e);
    ObjAt(P, k);
    NextElem(Head(P[k]), e);
    D.ScalarInside(P[k], e + 1);
    ScalarRange(Head(P[k]), e + 1);
    WriteScalars(P, k, x, LE(t, 4));
    var Q := Write(P, k, x, LE(t, 4));
    ObjAt(Q, k);
    FewObjects(P);
    ReadBack(P[k], Q[k], e + 1, t);
  }

  /** The first word of an element's scalar part, after it was stored. */
  lemma ReadBack(b: seq<byte>, c: seq<byte>, e: nat, t: nat)
    requires WFObj(b) && WFObj(c) && Head(c) == Head(b) && e < Head(b).nelem && Head(b).ssize >= 4
    requires t < 0x8000_0000 && Pos(Head(b), e, 0) + 4 <= |b| && c == Splice(b, Pos(Head(b), e, 0), LE(t, 4))
    ensures UnLE(D.PoolScalar(c, e)[..4]) == t
  {
    hide Head, WFObj, Pos, Splice, LE, UnLE;
    var x := Pos(Head(b), e, 0);
    D.ScalarInside(c, e);
    Spliced(b, x, LE(t, 4));
    PrefixOfSlice(c, x, Head(b).ssize);
    UnLEofLE(t, 4);
    Pow256Values();
  }

  lemma Spliced(b: seq<byte>, x: nat, w: seq<byte>)
    requires x + |w| <= |b|
    ensures Splice(b, x, w)[x..x + |w|] == w
  {
  }

  lemma PrefixOfSlice(c: seq<byte>, x: nat, n: nat)
    requires 4 <= n && x + n <= |c|
    ensures c[x..x + n][..4] == c[x..x + 4]
  {
  }

  lemma FewObjects(P: Pool)
    requires WF(P)
    ensures |P| < 0x8000_0000
  {
  }

  lemma NextElem(h: Obj, e: nat)
    requires h.psize == 0 && h.ssize > 0 && e < h.nelem && h.base == 8
    ensures GetElem(h, e).base + PtrOffs(GetElem(h, e), 0) == Pos(h, e + 1, 0) >= 8 && GetElem(h, e).psize == 0
  {
    assert (e + 1) * ElemSize(h) == e * ElemSize(h) + ElemSize(h);
  }

  // ---------------------------------------------------------------- what a reader would notice

  /** Everything object k is serialized to, its padding left aside, is the same in two pools. */
  ghost predicate SameBytes(P: Pool, Q: Pool, k: nat)
    requires k < |P| && k < |Q|
  {
    forall y :: 0 <= y < 8 + PayloadSize(Head(P[k])) && y < |P[k]| && y < |Q[k]| ==>
      SerByte(Q, k, y) == SerByte(P, k, y)
  }

  /** The four bytes at x, as far as they belong to elements, hold id t already. */
  predicate Holds(b: seq<byte>, x: nat, t: nat) {
    forall y :: x <= y < x + 4 && y < 8 + PayloadSize(Head(b)) && y < |b| ==> b[y] == LE(t, 4)[y - x]
  }

  /** If nothing else is done before serializing, a store that stays inside the buffer is harmless also
      where it falls into padding. */
  lemma SerializedAtOnceIff(P: Pool, k: nat, e: nat, i: nat, t: nat, x: nat)
    requires WF(P) && D.Fits(P) && k < t < |P|
    requires e < Head(P[k]).nelem && i >= Head(P[k]).psize
    requires x == GetElem(Head(P[k]), e).base + PtrOffs(GetElem(Head(P[k]), e), i) && x + 4 <= |P[k]|
    ensures SameBytes(P, Write(P, k, x, LE(t, 4)), k) <==> Holds(P[k], x, t)
  {
    hide WF, Head, GetElem, WFObj, D.Fits;
    ObjAt(P, k);
    BeyondPsize(Head(P[k]), e, i, x);
    StoreIff(P, k, x, t);
  }

  lemma StoreIff(P: Pool, k: nat, x: nat, t: nat)
    requires WF(P) && D.Fits(P) && k < t < |P| && 8 <= x && x + 4 <= |P[k]|
    requires Head(P[k]).psize > 0 && Head(P[k]).ssize % 4 == 0 ==> x % 4 == 0
    ensures SameBytes(P, Write(P, k, x, LE(t, 4)), k) <==> Holds(P[k], x, t)
  {
    hide WF, Head, WFObj, SameBytes, Holds, D.Fits;
    if Holds(P[k], x, t) {
      HarmlessStore(P, k, x, t);
    }
    if SameBytes(P, Write(P, k, x, LE(t, 4)), k) {
      HarmfulStore(P, k, x, t);
    }
  }

  /** Growing the object later brings padding to light: from the moment that its elements cover the word,
      the store is harmless if and only if what it stores was there already. */
  lemma GrownLaterIff(P: Pool, k: nat, e: nat, i: nat, t: nat, x: nat, n: nat)
    requires WF(P) && k < t < |P|
    requires e < Head(P[k]).nelem && i >= Head(P[k]).psize
    requires x == GetElem(Head(P[k]), e).base + PtrOffs(GetElem(Head(P[k]), e), i) && x + 4 <= |P[k]|
    requires Head(P[k]).nelem <= n && ValidShape(Head(P[k]).(nelem := n))
    requires x + 4 <= 8 + PayloadSize(Head(P[k]).(nelem := n))
    requires |P[k]| >= 8 && D.Fits(P[k := Grown(P[k], n)])
    ensures SameBytes(P[k := Grown(P[k], n)], P[k := Grown(Splice(P[k], x, LE(t, 4)), n)], k)
       <==> P[k][x..x + 4] == LE(t, 4)
  {
    hide WF, Head, GetElem, WFObj, D.Fits, ValidShape, PayloadSize, Grown, Splice, SameBytes, Holds;
    ObjAt(P, k);
    BeyondPsize(Head(P[k]), e, i, x);
    var b, h := P[k], Head(P[k]);
    var c := Grown(b, n);
    GrownWF(b, n);
    GrowWF(P, k, n);
    CoversWord(b, x, n);
    StoreIff(P[k := c], k, x, t);
    GrownSplice(b, x, LE(t, 4), n);
    assert P[k := c][k := Splice(c, x, LE(t, 4))] == P[k := Grown(Splice(b, x, LE(t, 4)), n)];
    HoldsGrown(b, c, x, t);
  }

  lemma CoversWord(b: seq<byte>, x: nat, n: nat)
    requires |b| >= 8 && x + 4 <= |b|
    ensures x + 4 <= |Grown(b, n)|
  {
  }

  /** Growing does not touch a word behind the header. */
  lemma GrownSplice(b: seq<byte>, x: nat, w: seq<byte>, n: nat)
    requires 8 <= x && x + |w| <= |b|
    ensures x + |w| <= |Grown(b, n)| && Grown(Splice(b, x, w), n) == Splice(Grown(b, n), x, w)
  {
    hide Head, ObjSize;
    SpliceHead(b, x, w);
  }

  lemma HoldsGrown(b: seq<byte>, c: seq<byte>, x: nat, t: nat)
    requires 8 <= x && x + 4 <= |b| <= |c| && x + 4 <= 8 + PayloadSize(Head(c))
    requires forall y :: 8 <= y < |b| ==> c[y] == b[y]
    ensures Holds(c, x, t) <==> b[x..x + 4] == LE(t, 4)
  {
    hide Head, PayloadSize;
    if Holds(c, x, t) {
      forall j | 0 <= j < 4
        ensures b[x..x + 4][j] == LE(t, 4)[j]
      {
        assert c[x + j] == b[x + j];
      }
    } else {
      assert forall y :: x <= y < x + 4 ==> b[x..x + 4][y - x] == c[y];
    }
  }

  /** A list of one uint16 whose padding was stored into: nothing is to be seen until the list grows, when
      its second element is not blank. */
  lemma PaddingSurfaces(b: seq<byte>, t: nat)
    requires WFObj(b) && Head(b) == Obj(8, 1, 2, 0) && 0 < t < 256
    ensures |b| == 16 && Holds(b, 10, t)
    ensures Grown(b, 2)[10] == 0 && Grown(Splice(b, 10, LE(t, 4)), 2)[10] as int == t
  {
  }

  lemma DirectIgnores(buf: seq<byte>, r: Obj, i: nat, v: Obj)
    requires Readable(buf, r) && i >= r.psize
    ensures PutRel(buf, r, i, v) == buf
  {
  }

  lemma BeyondPsize(h: Obj, e: nat, i: nat, x: nat)
    requires e < h.nelem && h.base == 8 && i >= h.psize && x == GetElem(h, e).base + PtrOffs(GetElem(h, e), i)
    ensures x >= 8 && GetElem(h, e).psize == h.psize
    ensures h.psize > 0 && h.ssize % 4 == 0 ==> x % 4 == 0
  {
    if h.psize > 0 && h.ssize % 4 == 0 {
      var w := h.ssize / 4 + h.psize;
      assert ElemSize(h) == 4 * w;
      FourTimes(e, w);
      assert x == 8 + 4 * (e * w) + h.ssize + 4 * i;
    }
  }

  lemma HarmlessStore(P: Pool, k: nat, x: nat, t: nat)
    requires WF(P) && k < |P| && t < |P| && 8 <= x && x + 4 <= |P[k]| && Holds(P[k], x, t)
    ensures SameBytes(P, Write(P, k, x, LE(t, 4)), k)
  {
    hide WF, Head, Off, WFObj, SerByte, PayloadSize;
    var Q := Write(P, k, x, LE(t, 4));
    SpliceAt(P[k], x, LE(t, 4));
    ObjAt(P, k);
    SpliceHead(P[k], x, LE(t, 4));
    forall y | 0 <= y < 8 + PayloadSize(Head(P[k])) && y < |P[k]|
      ensures SerByte(Q, k, y) == SerByte(P, k, y)
    {
      SameSerByte(P, Q, k, y);
    }
  }

  /** A byte of an element is serialized alike in two pools that agree on the elements of its object. */
  lemma SameSerByte(P: Pool, Q: Pool, k: nat, y: nat)
    requires WF(P) && k < |P| == |Q| && |P[k]| == |Q[k]| && Head(Q[k]) == Head(P[k])
    requires forall j :: 0 <= j < |P| && j != k ==> Q[j] == P[j]
    requires forall z :: 0 <= z < 8 + PayloadSize(Head(P[k])) && z < |P[k]| ==> Q[k][z] == P[k][z]
    requires y < 8 + PayloadSize(Head(P[k])) && y < |P[k]|
    ensures SerByte(Q, k, y) == SerByte(P, k, y)
  {
    hide WF, Head, Off, WFObj, InPtr, WordStart, PtrPos, PayloadSize, Word;
    var h := Head(P[k]);
    ObjAt(P, k);
    if InPtr(h, y) {
      var e, i := PtrByteSlot(h, y);
      SlotInside(P[k], e, i);
      SlotInPayload(P[k], e, i);
      var w := PtrPos(h, e, i);
      SameWord(P[k], Q[k], w, 8 + PayloadSize(h));
      SlotBound(P, k, e, i);
      RelAgree(P, Q, k, w);
    }
  }

  lemma SlotInPayload(b: seq<byte>, e: nat, i: nat)
    requires WFObj(b) && e < Head(b).nelem && i < Head(b).psize
    ensures PtrPos(Head(b), e, i) + 4 <= 8 + PayloadSize(Head(b))
  {
    hide Head, PtrPos, WFObj, PayloadSize;
    ObjExtent(b);
    SlotEnd(Head(b), e, i);
  }

  lemma SlotBound(P: Pool, k: nat, e: nat, i: nat)
    requires WF(P) && k < |P| && e < Head(P[k]).nelem && i < Head(P[k]).psize
    ensures Word(P[k], PtrPos(Head(P[k]), e, i)) < |P| && Word(P[k], PtrPos(Head(P[k]), e, i)) == Slot(P[k], e, i)
  {
    hide Word, Head, PtrPos, WFObj;
    assert SlotsOK(P, k);
    assert Slot(P[k], e, i) == 0 || k < Slot(P[k], e, i) < |P|;
  }

  lemma SameWord(b: seq<byte>, c: seq<byte>, w: nat, n: nat)
    requires |b| == |c| && w + 4 <= n && w + 4 <= |b|
    requires forall z :: 0 <= z < n && z < |b| ==> c[z] == b[z]
    ensures Word(c, w) == Word(b, w)
  {
    assert c[w..w + 4] == b[w..w + 4];
  }

  lemma HarmfulStore(P: Pool, k: nat, x: nat, t: nat)
    requires WF(P) && D.Fits(P) && k < t < |P| && 8 <= x && x + 4 <= |P[k]|
    requires Head(P[k]).psize > 0 && Head(P[k]).ssize % 4 == 0 ==> x % 4 == 0
    requires SameBytes(P, Write(P, k, x, LE(t, 4)), k)
    ensures Holds(P[k], x, t)
  {
    hide WF, Head, Off, WFObj, SerByte, PayloadSize, D.Fits, InPtr;
    ObjAt(P, k);
    forall y | x <= y < x + 4 && y < 8 + PayloadSize(Head(P[k])) && y < |P[k]|
      ensures P[k][y] == LE(t, 4)[y - x]
    {
      var Q := Write(P, k, x, LE(t, 4));
      assert SerByte(Q, k, y) == SerByte(P, k, y);
      if InPtr(Head(P[k]), y) {
        StoredPointer(P, k, x, t, y);
      } else {
        StoredScalar(P, k, x, t, y);
      }
    }
  }

  lemma StoredScalar(P: Pool, k: nat, x: nat, t: nat, y: nat)
    requires k < |P| && |P[k]| >= 8 && 8 <= x <= y < x + 4 <= |P[k]| && !InPtr(Head(P[k]), y)
    requires SerByte(Write(P, k, x, LE(t, 4)), k, y) == SerByte(P, k, y)
    ensures P[k][y] == LE(t, 4)[y - x]
  {
    hide Head, Off, InPtr, Rel, WordStart;
    SpliceAt(P[k], x, LE(t, 4));
    SpliceHead(P[k], x, LE(t, 4));
  }

  /** A word stored over a pointer is serialized alike only if it is the same id. */
  lemma StoredPointer(P: Pool, k: nat, x: nat, t: nat, y: nat)
    requires WF(P) && D.Fits(P) && k < t < |P| && 8 <= x <= y < x + 4 <= |P[k]|
    requires Head(P[k]).psize > 0 && Head(P[k]).ssize % 4 == 0 ==> x % 4 == 0
    requires InPtr(Head(P[k]), y) && SameBytes(P, Write(P, k, x, LE(t, 4)), k)
    ensures P[k][y] == LE(t, 4)[y - x]
  {
    hide WF, Head, Off, WFObj, SerByte, PayloadSize, D.Fits, InPtr, WordStart, PtrPos, Slot, SameBytes, Rel;
    ObjAt(P, k);
    var h := Head(P[k]);
    var e, i := PtrByteSlot(h, y);
    SlotInside(P[k], e, i);
    WordAligned(P[k]);
    assert h.psize > 0;
    assert x == PtrPos(h, e, i) by { SameMultiple(x, PtrPos(h, e, i), y); }
    WritePtr(P, k, e, i, t);
    var Q := Write(P, k, x, LE(t, 4));
    assert D.Fits(Q) by { SameTotal(P, Q); }
    SameRel(P, Q, k, e, i, x);
    D.RelExact(P, k, e, i);
    D.RelExact(Q, k, e, i);
    OffAgree(P, Q, k);
    OffAgree(P, Q, t);
    SameTarget(P, k, e, i, t);
    SlotBound(P, k, e, i);
    WordBytes(P[k], x, t, y);
  }

  lemma WordAligned(b: seq<byte>)
    requires WFObj(b)
    ensures Head(b).psize > 0 ==> Head(b).ssize % 4 == 0
  {
  }

  lemma SameMultiple(x: nat, w: nat, y: nat)
    requires x % 4 == 0 && w % 4 == 0 && x <= y < x + 4 && w <= y < w + 4
    ensures x == w
  {
  }

  lemma SameTotal(P: Pool, Q: Pool)
    requires D.Fits(P) && |P| == |Q| && forall j :: 0 <= j < |P| ==> |Q[j]| == |P[j]|
    ensures D.Fits(Q)
  {
    OffAgree(P, Q, |P|);
  }

  /** Relative pointers that are serialized alike are equal. */
  lemma SameRel(P: Pool, Q: Pool, k: nat, e: nat, i: nat, x: nat)
    requires WF(P) && WF(Q) && D.Fits(P) && D.Fits(Q) && k < |P| == |Q|
    requires Head(Q[k]) == Head(P[k]) && e < Head(P[k]).nelem && i < Head(P[k]).psize && |P[k]| == |Q[k]|
    requires x == PtrPos(Head(P[k]), e, i) && SameBytes(P, Q, k)
    ensures Rel(P, k, x) == Rel(Q, k, x)
  {
    hide WF, Head, Off, WFObj, PayloadSize, D.Fits, InPtr, WordStart, PtrPos, Slot, Rel, SerByte;
    ObjAt(P, k);
    SlotInPayload(P[k], e, i);
    SlotInside(P[k], e, i);
    forall j | 0 <= j < 4
      ensures LE(Rel(P, k, x), 4)[j] == LE(Rel(Q, k, x), 4)[j]
    {
      D.SerSlotByte(P, k, e, i, j);
      D.SerSlotByte(Q, k, e, i, j);
      assert SerByte(Q, k, x + j) == SerByte(P, k, x + j);
    }
    assert LE(Rel(P, k, x), 4) == LE(Rel(Q, k, x), 4);
    D.RelExact(P, k, e, i);
    D.RelExact(Q, k, e, i);
    D.SignedLE(Rel(P, k, x));
    D.SignedLE(Rel(Q, k, x));
  }

  lemma SameTarget(P: Pool, k: nat, e: nat, i: nat, t: nat)
    requires WF(P) && D.Fits(P) && k < t < |P| && e < Head(P[k]).nelem && i < Head(P[k]).psize
    requires var x := PtrPos(Head(P[k]), e, i);
             Rel(P, k, x) > 0 && Off(P, k) + x + 4 * Rel(P, k, x) == Off(P, t)
    ensures Slot(P[k], e, i) == t
  {
    hide WF, Head, Off, WFObj, D.Fits, PtrPos, Slot, Rel;
    D.RelExact(P, k, e, i);
    var id := Slot(P[k], e, i);
    if id < t {
      ObjAt(P, id);
      OffMono(P, id, t);
    } else if t < id {
      ObjAt(P, t);
      OffMono(P, t, id);
    }
  }

  lemma WordBytes(b: seq<byte>, x: nat, t: nat, y: nat)
    requires x <= y < x + 4 <= |b| && Word(b, x) == t
    ensures b[y] == LE(t, 4)[y - x]
  {
    LEofUnLE(b[x..x + 4]);
    assert b[x..x + 4][y - x] == b[y];
  }
}
