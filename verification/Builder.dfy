/** The builder: a pool of one buffer per object, and the two-pass serializer (lib/pool.c). */
module Builder {
  import opened Bytes
  import opened Wire
  import opened Pool
  import opened Decode
  import opened Simulation
  import opened Buffer

  class Builder {
    var bufs: seq<Buffer>
    /** The pool as a value: the contents of the buffers. */
    ghost var objs: Pool
    ghost var Repr: set<object>

    ghost predicate Valid()
      reads this, Repr
      ensures Valid() ==> this in Repr
    {
      && this in Repr
      && |objs| == |bufs|
      && (forall k :: 0 <= k < |bufs| ==> bufs[k] in Repr && bufs[k].base in Repr)
      && (forall j, k :: 0 <= j < k < |bufs| ==> bufs[j] != bufs[k] && bufs[j].base != bufs[k].base)
      && (forall k :: 0 <= k < |bufs| ==> bufs[k].Valid() && bufs[k].id == k)
      && (forall k :: 0 <= k < |bufs| ==> bufs[k].Contents() == objs[k])
    }

    constructor ()
      ensures Valid() && fresh(Repr) && objs == []
    {
      bufs := [];
      objs := [];
      Repr := {this};
    }

    /** Creates an object in a buffer of its own; its id is its index. */
    method Create(o: Obj) returns (k: nat)
      requires Valid() && ValidShape(o) && |NewObj(o)| <= MAX_LEN
      modifies this
      ensures Valid() && fresh(Repr - old(Repr))
      ensures k == |old(objs)| && objs == old(objs) + [NewObj(o)]
    {
      hide NewObj, ValidShape;
      k := |bufs|;
      var b := new Buffer(k);
      var r := b.Create(o);
      assert [] + NewObj(o) == NewObj(o);
      bufs := bufs + [b];
      objs := objs + [NewObj(o)];
      Repr := Repr + {b, b.base};
    }

    method PutInt(k: nat, e: nat, off: nat, sz: nat, v: int)
      requires Valid() && k < |bufs| && WFObj(objs[k])
      modifies Repr
      ensures Valid() && Repr == old(Repr) && bufs == old(bufs)
      ensures Readable(old(objs)[k], GetElem(Head(old(objs)[k]), e))
      ensures objs == old(objs)[k := Wire.PutInt(old(objs)[k], GetElem(Head(old(objs)[k]), e), off, sz, v)]
    {
      hide WFObj, Wire.PutInt, GetElem, Head;
      ElemInObj(objs[k], e);
      bufs[k].PutInt(GetElem(Head(bufs[k].Contents()), e), off, sz, v);
      objs := objs[k := bufs[k].Contents()];
    }

    method PutBit(k: nat, e: nat, bit: nat, v: bool)
      requires Valid() && k < |bufs| && WFObj(objs[k])
      modifies Repr
      ensures Valid() && Repr == old(Repr) && bufs == old(bufs)
      ensures Readable(old(objs)[k], GetElem(Head(old(objs)[k]), e))
      ensures objs == old(objs)[k := Wire.PutBit(old(objs)[k], GetElem(Head(old(objs)[k]), e), bit, v)]
    {
      hide WFObj, Wire.PutBit, GetElem, Head;
      ElemInObj(objs[k], e);
      bufs[k].PutBit(GetElem(Head(bufs[k].Contents()), e), bit, v);
      objs := objs[k := bufs[k].Contents()];
    }

    /** The same through a handle that the client holds. */
    method WriteInt(k: nat, r: Obj, off: nat, sz: nat, v: int)
      requires Valid() && k < |bufs| && Readable(objs[k], r)
      modifies Repr
      ensures Valid() && Repr == old(Repr) && bufs == old(bufs)
      ensures objs == old(objs)[k := Wire.PutInt(old(objs)[k], r, off, sz, v)]
    {
      hide Wire.PutInt;
      bufs[k].PutInt(r, off, sz, v);
      objs := objs[k := bufs[k].Contents()];
    }

    method WriteBit(k: nat, r: Obj, bit: nat, v: bool)
      requires Valid() && k < |bufs| && Readable(objs[k], r)
      modifies Repr
      ensures Valid() && Repr == old(Repr) && bufs == old(bufs)
      ensures objs == old(objs)[k := Wire.PutBit(old(objs)[k], r, bit, v)]
    {
      hide Wire.PutBit;
      bufs[k].PutBit(r, bit, v);
      objs := objs[k := bufs[k].Contents()];
    }

    /** Stores the id of object t at byte x of object k. */
    method Link(k: nat, x: nat, t: nat)
      requires Valid() && k < |bufs| && t < |bufs| && x + 4 <= |objs[k]|
      modifies Repr
      ensures Valid() && Repr == old(Repr) && bufs == old(bufs)
      ensures objs == Write(old(objs), k, x, LE(t, 4))
    {
      hide Splice;
      bufs[k].Store(x, LE(bufs[t].id, 4));
      objs := objs[k := bufs[k].Contents()];
    }

    /** Stores the id of object t in slot i of element e of object k. */
    method PutPtr(k: nat, e: nat, i: nat, t: nat)
      requires Valid() && k < |bufs| && t < |bufs| && WFObj(objs[k])
      requires e < Head(objs[k]).nelem && i < Head(objs[k]).psize
      modifies Repr
      ensures Valid() && Repr == old(Repr) && bufs == old(bufs)
      ensures PtrPos(Head(old(objs)[k]), e, i) + 4 <= |old(objs)[k]|
      ensures objs == Write(old(objs), k, PtrPos(Head(old(objs)[k]), e, i), LE(t, 4))
    {
      hide WFObj, GetElem, Head, PtrPos, Splice;
      SlotInside(objs[k], e, i);
      ElemOfPtr(Head(objs[k]), e, i);
      var r := GetElem(Head(bufs[k].Contents()), e);
      bufs[k].Store(r.base + PtrOffs(r, i), LE(bufs[t].id, 4));
      objs := objs[k := bufs[k].Contents()];
    }

    /** The builder's way to follow a pointer: the id in slot i of an element, which is 0 for a slot beyond the
        pointer part, and the object it designates. */
    method GetPtr(k: nat, r: Obj, i: nat, ghost e: nat) returns (j: nat, o: Obj)
      requires Valid() && WF(objs) && k < |bufs|
      requires e < Head(objs[k]).nelem && r == ElemHandle(Head(objs[k]), e)
      ensures j == if i < Head(objs[k]).psize then Slot(objs[k], e, i) else 0
      ensures j == 0 || k < j < |bufs|
      ensures o == if j == 0 then NULL else Head(objs[j])
    {
      hide WF, Head, Slot, RelPtr, Readable, ObjInit;
      if i >= r.psize {
        return 0, NULL;
      }
      SlotRead(objs, k, e, i);
      j := RelPtr(bufs[k].Contents(), r, i);
      if j == 0 {
        return 0, NULL;
      }
      ObjAt(objs, j);
      HeadIsInit(objs[j]);
      o := ObjInit(bufs[j].Contents(), 0);
    }

    /** Stores string bytes in a fresh string object. */
    method Fill(k: nat, s: seq<byte>)
      requires Valid() && k < |bufs| && 8 + |s| <= |objs[k]|
      modifies Repr
      ensures Valid() && Repr == old(Repr) && bufs == old(bufs)
      ensures objs == Write(old(objs), k, 8, s)
    {
      hide Splice;
      bufs[k].Store(8, s);
      objs := objs[k := bufs[k].Contents()];
    }

    /** Creates a string object and links it. */
    method PutStr(k: nat, e: nat, i: nat, s: seq<byte>)
      requires Valid() && k < |bufs| && WFObj(objs[k]) && |s| + 1 < U32
      requires e < Head(objs[k]).nelem && i < Head(objs[k]).psize
      modifies Repr
      ensures Valid() && fresh(Repr - old(Repr)) && |bufs| == |old(bufs)| + 1
      ensures PtrPos(Head(old(objs)[k]), e, i) + 4 <= |old(objs)[k]| && 8 + |s| <= |NewObj(StrShape(s))|
      ensures objs == Write(old(objs) + [Splice(NewObj(StrShape(s)), 8, s)],
                            k, PtrPos(Head(old(objs)[k]), e, i), LE(|old(objs)|, 4))
    {
      hide WFObj, Head, PtrPos, Splice, NewObj, ValidShape;
      StrFits(s);
      SmallString(s);
      SlotInside(objs[k], e, i);
      var t := Create(StrShape(s));
      Fill(t, s);
      PutPtr(k, e, i, t);
      assert Write(old(objs) + [NewObj(StrShape(s))], t, 8, s) == old(objs) + [Splice(NewObj(StrShape(s)), 8, s)];
    }

    /** Resizes object k to n elements; it may shrink as long as it does not end eight bytes earlier. */
    method Resize(k: nat, n: nat)
      requires Valid() && k < |bufs| && WFObj(objs[k])
      requires |objs[k]| <= ObjSize(Head(objs[k]).(nelem := n)) && ValidShape(Head(objs[k]).(nelem := n))
      modifies Repr
      ensures Valid() && fresh(Repr - old(Repr)) && bufs == old(bufs)
      ensures |old(objs)[k]| >= 8 && objs == old(objs)[k := Grown(old(objs)[k], n)]
    {
      hide WFObj, Head, Grown, DirectGrow, ValidShape, NewObj, ObjSize, PayloadSize, RoundUp;
      GrowInPool(objs[k], n);
      GrowFits(objs[k], n);
      var buf := bufs[k];
      var r := buf.Resize(Head(buf.Contents()), n);
      Repr := Repr + {buf.base};
      objs := objs[k := buf.Contents()];
    }

    // -------------------------------------------------------------- serialization

    /** The offsets recorded for the first n objects are those of the flat buffer. */
    ghost predicate OffsetsKnown(n: nat)
      requires Valid() && n <= |bufs|
      reads this, Repr
    {
      forall k :: 0 <= k < n ==> 4 * bufs[k].offset == Off(objs, k)
    }

    method SetOffset(i: nat, offset: nat)
      requires Valid() && i < |bufs| && OffsetsKnown(i) && 4 * offset == Off(objs, i)
      modifies Repr
      ensures Valid() && Repr == old(Repr) && bufs == old(bufs) && objs == old(objs)
      ensures OffsetsKnown(i + 1)
    {
      hide Off;
      bufs[i].offset := offset;
    }

    /** First pass: every buffer learns its offset in the flat buffer. */
    method AssignOffsets() returns (size: nat)
      requires Valid() && WF(objs)
      modifies Repr
      ensures Valid() && Repr == old(Repr) && bufs == old(bufs) && objs == old(objs)
      ensures size == Off(objs, |objs|) && OffsetsKnown(|bufs|)
    {
      hide WF, Head, ObjInit, PayloadSize, OffsetsKnown, RoundUp;
      size := 0;
      assert OffsetsKnown(0) by { NoOffsets(); }
      for i := 0 to |bufs|
        invariant Valid() && Repr == old(Repr) && bufs == old(bufs) && objs == old(objs)
        invariant size == Off(objs, i) && OffsetsKnown(i)
      {
        var o := ObjInit(bufs[i].Contents(), 0);
        NextOffset(objs, i);
        SetOffset(i, size / 4);
        size := RoundUp(size + 8 + PayloadSize(o), 8);
      }
    }

    lemma NoOffsets()
      requires Valid()
      ensures OffsetsKnown(0)
    {
    }

    /** Second pass for one object: copies it behind `at`, replacing ids by relative pointers. */
    method Emit(i: nat, output: array<byte>, at: nat) returns (cursor: nat)
      requires i < |bufs| == |objs| && Valid() && WF(objs) && Fits(objs) && output !in Repr && OffsetsKnown(|bufs|)
      requires at == Off(objs, i) && at <= output.Length && Off(objs, |objs|) <= output.Length
      modifies output
      ensures cursor == Off(objs, i + 1) <= output.Length
      ensures output[..cursor] == old(output[..at]) + SerObj(objs, i)
    {
      hide WF, Head, PayloadSize, SerObj, WFObj, InPtr, Fits, OffsetsKnown, Off, ElemSize, ObjInit;
      Extent(objs, i);
      ghost var pre := output[..at];
      var src := bufs[i].Contents();
      var o := ObjInit(src, 0);
      HeadCopies(objs, i);
      cursor := Append(output, at, src[0..8]);
      Grow(pre, SerObj(objs, i), 0, 8, src[0..8]);
      if o.psize == 0 {
        PayloadCopies(objs, i);
        cursor := Append(output, cursor, src[8..8 + PayloadSize(o)]);
        Grow(pre, SerObj(objs, i), 8, 8 + PayloadSize(o), src[8..8 + PayloadSize(o)]);
      } else {
        cursor := EmitElems(i, output, at, pre);
      }
      PadCopies(objs, i);
      var pad := |src| - (cursor - at);
      cursor := Append(output, cursor, Zeros(pad));
      Grow(pre, SerObj(objs, i), 8 + PayloadSize(o), |src|, Zeros(pad));
      assert SerObj(objs, i)[..|src|] == SerObj(objs, i);
    }

    /** All elements of an object that has pointers. */
    method EmitElems(i: nat, output: array<byte>, at: nat, ghost pre: seq<byte>) returns (cursor: nat)
      requires Valid() && WF(objs) && Fits(objs) && i < |bufs| && output !in Repr && OffsetsKnown(|bufs|)
      requires at == Off(objs, i) == |pre| && at + |objs[i]| <= output.Length
      requires Head(objs[i]).psize > 0 && |objs[i]| >= 8
      requires output[..at + 8] == pre + SerObj(objs, i)[..8]
      modifies output
      ensures 8 + PayloadSize(Head(objs[i])) <= |objs[i]|
      ensures cursor == at + 8 + PayloadSize(Head(objs[i]))
      ensures output[..cursor] == pre + SerObj(objs, i)[..8 + PayloadSize(Head(objs[i]))]
    {
      hide WF, Head, PayloadSize, SerObj, InPtr, Fits, OffsetsKnown, Off, ElemSize;
      Extent(objs, i);
      var o := Head(bufs[i].Contents());
      cursor := at + 8;
      for j := 0 to o.nelem
        invariant 8 + j * ElemSize(o) <= |objs[i]|
        invariant cursor == at + 8 + j * ElemSize(o)
        invariant output[..cursor] == pre + SerObj(objs, i)[..8 + j * ElemSize(o)]
      {
        ElemFits(objs, i, j);
        cursor := EmitElem(i, j, output, at, pre);
      }
    }

    /** One element of an object that has pointers. */
    method EmitElem(i: nat, j: nat, output: array<byte>, at: nat, ghost pre: seq<byte>) returns (cursor: nat)
      requires Valid() && WF(objs) && Fits(objs) && i < |bufs| && output !in Repr && OffsetsKnown(|bufs|)
      requires at == Off(objs, i) == |pre| && at + |objs[i]| <= output.Length
      requires j < Head(objs[i]).nelem && Head(objs[i]).psize > 0
      requires Pos(Head(objs[i]), j, 0) + ElemSize(Head(objs[i])) <= |objs[i]|
      requires output[..at + Pos(Head(objs[i]), j, 0)] == pre + SerObj(objs, i)[..Pos(Head(objs[i]), j, 0)]
      modifies output
      ensures cursor == at + Pos(Head(objs[i]), j, 0) + ElemSize(Head(objs[i]))
      ensures output[..cursor]
           == pre + SerObj(objs, i)[..Pos(Head(objs[i]), j, 0) + ElemSize(Head(objs[i]))]
    {
      hide WF, Head, SerObj, InPtr, Fits, Pos, Off, OffsetsKnown, PayloadSize, WFObj;
      var src := bufs[i].Contents();
      var o := Head(src);
      var p := Pos(o, j, 0);
      assert ElemSize(o) == o.ssize + 4 * o.psize;
      hide ElemSize, PtrOffs;
      ghost var s := SerObj(objs, i);
      ScalarCopies(objs, i, j);
      cursor := Append(output, at + p, src[p..p + o.ssize]);
      Grow(pre, s, p, p + o.ssize, src[p..p + o.ssize]);
      for k := 0 to o.psize
        invariant cursor == at + p + o.ssize + 4 * k
        invariant output[..cursor] == pre + s[..p + o.ssize + 4 * k]
      {
        cursor := EmitSlot(i, j, k, output, at, p + o.ssize + 4 * k, pre);
      }
    }

    /** One pointer slot: ids become distances. */
    method EmitSlot(i: nat, j: nat, k: nat, output: array<byte>, at: nat, w: nat, ghost pre: seq<byte>)
      returns (cursor: nat)
      requires Valid() && WF(objs) && Fits(objs) && i < |bufs| && output !in Repr && OffsetsKnown(|bufs|)
      requires at == Off(objs, i) == |pre| && at + |objs[i]| <= output.Length
      requires j < Head(objs[i]).nelem && k < Head(objs[i]).psize
      requires w == Pos(Head(objs[i]), j, 0) + Head(objs[i]).ssize + 4 * k && w + 4 <= |objs[i]|
      requires output[..at + w] == pre + SerObj(objs, i)[..w]
      modifies output
      ensures cursor == at + w + 4
      ensures output[..cursor] == pre + SerObj(objs, i)[..w + 4]
    {
      hide WF, Head, SerObj, Fits, Pos, Off;
      var src := bufs[i].Contents();
      SlotValue(objs, i, j, k);
      var id := UnLE(src[w..w + 4]);
      var rel := 0;
      if id != 0 {
        assert i < id < |bufs|;
        rel := bufs[id].offset - (at + w) / 4;
      }
      cursor := Append(output, at + w, LE(rel, 4));
      Grow(pre, SerObj(objs, i), w, w + 4, LE(rel, 4));
    }

    /** Second pass: emits every object in turn. */
    method EmitAll(output: array<byte>)
      requires Valid() && WF(objs) && Fits(objs) && output !in Repr && OffsetsKnown(|bufs|)
      requires output.Length == Off(objs, |objs|)
      modifies output
      ensures output[..] == Ser(objs)
    {
      hide WF, Fits, SerObj, OffsetsKnown;
      var cursor := 0;
      for i := 0 to |bufs|
        invariant cursor == Off(objs, i) <= output.Length
        invariant output[..cursor] == SerPrefix(objs, i)
      {
        cursor := Emit(i, output, cursor);
      }
      assert output[..] == output[..cursor];
    }

    /** Flattens the pool. */
    method Serialize() returns (output: array<byte>)
      requires Valid() && WF(objs) && Fits(objs)
      modifies Repr
      ensures Valid() && objs == old(objs)
      ensures fresh(output) && output[..] == Ser(objs)
    {
      hide WF, Fits, Ser, OffsetsKnown, Off;
      var size := AssignOffsets();
      output := new byte[size](_ => 0);
      EmitAll(output);
    }
  }

  /** Copies w to position `cursor` of the output and advances. */
  method Append(output: array<byte>, cursor: nat, w: seq<byte>) returns (next: nat)
    requires cursor + |w| <= output.Length
    modifies output
    ensures next == cursor + |w|
    ensures output[..next] == old(output[..cursor]) + w
  {
    forall x | 0 <= x < |w| {
      output[cursor + x] := w[x];
    }
    next := cursor + |w|;
    assert output[..next] == old(output[..cursor]) + w;
  }

  lemma Grow(pre: seq<byte>, s: seq<byte>, a: nat, b: nat, w: seq<byte>)
    requires a <= b <= |s| && s[a..b] == w
    ensures (pre + s[..a]) + w == pre + s[..b]
    ensures a == 0 ==> pre + w == pre + s[..b]
  {
    assert s[..a] + s[a..b] == s[..b];
  }

  lemma NextOffset(P: Pool, i: nat)
    requires WF(P) && i < |P|
    ensures ObjInit(P[i], 0) == Head(P[i])
    ensures Off(P, i) % 8 == 0
    ensures RoundUp(Off(P, i) + 8 + PayloadSize(Head(P[i])), 8) == Off(P, i + 1)
  {
    hide Head, PayloadSize, WF, WFObj, RoundUp;
    ObjAt(P, i);
    HeadIsInit(P[i]);
    AllAligned(P, i);
    SizeOfWF(P[i]);
    RoundUpShift(Off(P, i), 8 + PayloadSize(Head(P[i])));
  }

  lemma Extent(P: Pool, i: nat)
    requires WF(P) && i < |P|
    ensures ObjInit(P[i], 0) == Head(P[i])
    ensures 8 + PayloadSize(Head(P[i])) <= |P[i]|
    ensures Off(P, i) + |P[i]| == Off(P, i + 1) <= Off(P, |P|)
    ensures Head(P[i]).psize > 0 ==> PayloadSize(Head(P[i])) == Head(P[i]).nelem * ElemSize(Head(P[i]))
  {
    hide Head, PayloadSize, WF;
    ObjAt(P, i);
    HeadIsInit(P[i]);
    ObjExtent(P[i]);
    OffMono(P, i + 1, |P|);
  }

  lemma HeadCopies(P: Pool, i: nat)
    requires WF(P) && i < |P|
    ensures |P[i]| >= 8 && SerObj(P, i)[0..8] == P[i][0..8]
  {
    ObjAt(P, i);
    SerObjCopies(P, i, 0, 8);
  }

  lemma PayloadCopies(P: Pool, i: nat)
    requires WF(P) && i < |P| && Head(P[i]).psize == 0
    ensures 8 + PayloadSize(Head(P[i])) <= |P[i]|
    ensures SerObj(P, i)[8..8 + PayloadSize(Head(P[i]))] == P[i][8..8 + PayloadSize(Head(P[i]))]
  {
    hide Head, PayloadSize, WF, InPtr, SerObj;
    Extent(P, i);
    NoPtrs(Head(P[i]));
    SerObjCopies(P, i, 8, 8 + PayloadSize(Head(P[i])));
  }

  /** Padding is zero in the pool and stays zero. */
  lemma PadCopies(P: Pool, i: nat)
    requires WF(P) && i < |P|
    ensures 8 + PayloadSize(Head(P[i])) <= |P[i]|
    ensures SerObj(P, i)[8 + PayloadSize(Head(P[i]))..|P[i]|] == Zeros(|P[i]| - (8 + PayloadSize(Head(P[i]))))
  {
    hide Head, PayloadSize, WF, InPtr, SerObj;
    Extent(P, i);
    ObjAt(P, i);
    BeyondPtrs(Head(P[i]));
    var a := 8 + PayloadSize(Head(P[i]));
    SerObjCopies(P, i, a, |P[i]|);
    assert P[i][a..|P[i]|] == Zeros(|P[i]| - a);
  }

  lemma BeyondPtrs(h: Obj)
    ensures forall x :: x >= 8 + PayloadSize(h) ==> !InPtr(h, x)
  {
    if h.psize > 0 {
      assert PayloadSize(h) == ElemSize(h) * h.nelem;
    }
  }

  lemma ElemFits(P: Pool, i: nat, j: nat)
    requires WF(P) && i < |P| && j < Head(P[i]).nelem
    ensures Pos(Head(P[i]), j, 0) + ElemSize(Head(P[i])) <= |P[i]|
    ensures Pos(Head(P[i]), j, 0) == 8 + j * ElemSize(Head(P[i]))
    ensures Pos(Head(P[i]), j, 0) + ElemSize(Head(P[i])) == 8 + (j + 1) * ElemSize(Head(P[i]))
  {
    hide Head, WF;
    ObjAt(P, i);
    ScalarInside(P[i], j);
    assert (j + 1) * ElemSize(Head(P[i])) == j * ElemSize(Head(P[i])) + ElemSize(Head(P[i]));
  }

  lemma ScalarCopies(P: Pool, i: nat, j: nat)
    requires WF(P) && i < |P| && j < Head(P[i]).nelem
    ensures var p := Pos(Head(P[i]), j, 0);
            p + Head(P[i]).ssize <= |P[i]|
            && SerObj(P, i)[p..p + Head(P[i]).ssize] == P[i][p..p + Head(P[i]).ssize]
  {
    hide Head, WF, Pos, InPtr, SerObj;
    ObjAt(P, i);
    ScalarInside(P[i], j);
    ScalarRange(Head(P[i]), j);
    SerObjCopies(P, i, Pos(Head(P[i]), j, 0), Pos(Head(P[i]), j, 0) + Head(P[i]).ssize);
  }

  /** What the second pass must write into a slot, in terms of recorded offsets. */
  lemma SlotValue(P: Pool, i: nat, j: nat, k: nat)
    requires WF(P) && Fits(P) && i < |P| && j < Head(P[i]).nelem && k < Head(P[i]).psize
    ensures var w := Pos(Head(P[i]), j, 0) + Head(P[i]).ssize + 4 * k;
            && w + 4 <= |P[i]|
            && var id := UnLE(P[i][w..w + 4]);
               && (id == 0 ==> SerObj(P, i)[w..w + 4] == LE(0, 4))
               && (id != 0 ==> i < id < |P| && Off(P, id) >= Off(P, i) + w
                               && SerObj(P, i)[w..w + 4] == LE(Off(P, id) / 4 - (Off(P, i) + w) / 4, 4))
  {
    hide Head, WF, SerObj, Off, Fits, Rel;
    var w := PtrPos(Head(P[i]), j, k);
    assert w == Pos(Head(P[i]), j, 0) + Head(P[i]).ssize + 4 * k;
    hide Pos, PtrPos;
    SerObjSlot(P, i, j, k);
    RelExact(P, i, j, k);
    SlotOffset(P, i, j, k);
  }

  lemma SlotOffset(P: Pool, i: nat, j: nat, k: nat)
    requires WF(P) && i < |P| && j < Head(P[i]).nelem && k < Head(P[i]).psize
    ensures (Off(P, i) + PtrPos(Head(P[i]), j, k)) % 4 == 0
  {
    hide Head, WF, PtrPos, Off, WFObj;
    ObjAt(P, i);
    AllAligned(P, i);
    SlotInside(P[i], j, k);
    var a, b := Off(P, i), PtrPos(Head(P[i]), j, k);
    assert a + b == 4 * (2 * (a / 8) + b / 4);
  }

  lemma SmallString(s: seq<byte>)
    requires |s| + 1 < U32
    ensures |NewObj(StrShape(s))| <= MAX_LEN
  {
    NewObjSize(StrShape(s));
    RoundUpProps(8 + PayloadSize(StrShape(s)), 8);
  }

  /** Object sizes are far below the address range. */
  lemma SizeBound(o: Obj)
    requires ValidShape(o)
    ensures ObjSize(o) < MAX_LEN / 4
  {
    PayloadFacts(o);
    assert ElemSize(o) <= 0x4_FFFB;
    MulMono(ElemSize(o), 0x4_FFFB, o.nelem);
    hide PayloadSize, ElemSize;
    RoundUpProps(8 + PayloadSize(o), 8);
  }

  lemma GrowFits(b: seq<byte>, n: nat)
    requires WFObj(b) && ValidShape(Head(b).(nelem := n))
    ensures |b| + |NewObj(Head(b).(nelem := n))| <= MAX_LEN
  {
    hide Head, PayloadSize, ValidShape, ObjSize, NewObj;
    SizeOfWF(b);
    assert ValidShape(Head(b));
    SizeBound(Head(b));
    SizeBound(Head(b).(nelem := n));
    NewObjSize(Head(b).(nelem := n));
  }

  /** An object that has its buffer to itself always ends it, so it can always grow. */
  lemma GrowInPool(b: seq<byte>, n: nat)
    requires WFObj(b) && |b| <= ObjSize(Head(b).(nelem := n))
    ensures |b| >= 8 && Head(b).base == 8
    ensures RoundUp(8 + PayloadSize(Head(b)), 8) <= RoundUp(8 + PayloadSize(Head(b).(nelem := n)), 8)
    ensures DirectGrow(b, Head(b), n) == (Grown(b, n), Head(b).(nelem := n))
  {
    hide Head, PayloadSize, ValidShape, RoundUp;
    SizeOfWF(b);
    GrownAsSplice(b, n);
    assert Head(b).(nelem := Head(b).nelem) == Head(b);
  }
}
