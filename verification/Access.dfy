/** Typed access to the fields of compiled messages: what is written is what is read, nothing else
    changes, and every access is aligned. */
module Access {
  import opened Bytes
  import opened Wire
  import opened Layout
  import opened Messages
  import opened Simulation

  /** Reads a field: a bool as 0 or 1, an integer sign-extended, a pointer as its relative offset. */
  function ReadField(buf: seq<byte>, o: Obj, f: Field, tag: nat): int
    requires Readable(buf, o)
  {
    match f
    case Scalar(size) =>
      if size == 0 then (if GetBit(buf, o, tag) then 1 else 0) else GetInt(buf, o, tag, size)
    case Pointer => RelPtr(buf, o, tag)
  }

  /** Writes a scalar field. */
  function WriteField(buf: seq<byte>, o: Obj, size: nat, tag: nat, v: int): (r: seq<byte>)
    requires Readable(buf, o)
    ensures |r| == |buf|
  {
    if size == 0 then PutBit(buf, o, tag, v != 0) else PutInt(buf, o, tag, size, v)
  }

  /** A value after it was cut to the field's width. */
  function Stored(size: nat, v: int): int {
    if size == 0 then (if v != 0 then 1 else 0) else Signed(v % Pow256(size), size)
  }

  /** The handle has the sizes of the message type. */
  predicate HasType(o: Obj, t: MsgType) {
    o.ssize == t.ssize && o.psize == t.psize
  }

  // ---------------------------------------------------------------- slots of a compiled type

  /** What the compiler's state says about one field. */
  lemma TagFacts(fields: seq<Field>, align: nat, i: nat)
    requires ValidFields(fields) && align in {0, 1, 2, 4, 8} && i < |fields|
    ensures var m := LayFields(fields, align);
            && Inv(m.run) && m.align in {0, 1, 2, 4, 8} && |m.tags| == |fields|
            && TagOK(m, fields, i) && ValidField(fields[i])
            && m.psize == |fields| - Rank(fields, |fields|)
            && CompileMsg(fields, align)
               == MsgType(fields, m.tags, FinalSize(m.run.st.ssize, m.psize, m.align), m.psize)
  {
    hide Inv, TagOK, Conserved;
  }

  lemma SlotInType(fields: seq<Field>, align: nat, i: nat)
    requires ValidFields(fields) && align in {0, 1, 2, 4, 8} && i < |fields| && fields[i].Scalar?
    ensures var t := CompileMsg(fields, align);
            var s := SlotOf(fields[i].size, t.tags[i]);
            s.start + s.len <= 8 * t.ssize && s.start % s.len == 0
  {
    hide MsgInv, LayFields, Inv, FinalSize, CompileMsg;
    var m := LayFields(fields, align);
    TagFacts(fields, align, i);
    SlotBelow(m.run, Rank(fields, i));
    if fields[i].size != 0 {
      BitUnits(m.tags[i], fields[i].size);
    }
  }

  lemma SlotBelow(r: Run, k: nat)
    requires Inv(r) && k < |r.placed| && r.placed[k].len > 0
    ensures r.placed[k].start + r.placed[k].len <= 8 * r.st.ssize
  {
    hide Free;
    var b := r.placed[k].start + r.placed[k].len - 1;
    assert In(r.placed[k], b);
    assert Occupied(r.placed, b);
  }

  /** Two scalar fields never share a bit. */
  lemma SlotsApart(fields: seq<Field>, align: nat, i: nat, j: nat)
    requires ValidFields(fields) && align in {0, 1, 2, 4, 8} && i < |fields| && j < |fields| && i != j
    requires fields[i].Scalar? && fields[j].Scalar?
    ensures var t := CompileMsg(fields, align);
            var s, u := SlotOf(fields[i].size, t.tags[i]), SlotOf(fields[j].size, t.tags[j]);
            s.start + s.len <= u.start || u.start + u.len <= s.start
  {
    hide MsgInv, LayFields, Inv, FinalSize, CompileMsg;
    var m := LayFields(fields, align);
    TagFacts(fields, align, i);
    TagFacts(fields, align, j);
    if i < j {
      RankMono(fields, i + 1, j);
    } else {
      RankMono(fields, j + 1, i);
    }
    PlacedApart(m.run, Rank(fields, i), Rank(fields, j));
  }

  lemma PlacedApart(r: Run, a: nat, c: nat)
    requires Inv(r) && a < |r.placed| && c < |r.placed| && a != c
    requires r.placed[a].len > 0 && r.placed[c].len > 0
    ensures var s, u := r.placed[a], r.placed[c];
            s.start + s.len <= u.start || u.start + u.len <= s.start
  {
    hide Divided, Sorted, AllBacked, OpenFirst;
    var s, u := r.placed[a], r.placed[c];
    var b := if s.start < u.start then u.start else s.start;
    assert In(s, b) && In(u, b) ==> false by {
      if a < c {
        assert In(r.placed[a], b) ==> !In(r.placed[c], b);
      } else {
        assert In(r.placed[c], b) ==> !In(r.placed[a], b);
      }
    }
  }

  /** Pointer fields get distinct indices below the pointer count. */
  lemma PointerTags(fields: seq<Field>, align: nat, i: nat, j: nat)
    requires ValidFields(fields) && align in {0, 1, 2, 4, 8} && i < j < |fields|
    requires fields[i].Pointer? && fields[j].Pointer?
    ensures var t := CompileMsg(fields, align);
            t.tags[i] < t.tags[j] < t.psize
  {
    hide MsgInv, LayFields, Inv, FinalSize, CompileMsg;
    TagFacts(fields, align, i);
    TagFacts(fields, align, j);
    RankMono(fields, i + 1, j);
    RankMono(fields, j + 1, |fields|);
  }

  // ---------------------------------------------------------------- write, then read

  lemma IntRoundTrip(buf: seq<byte>, o: Obj, off: nat, sz: nat, v: int)
    requires Readable(buf, o) && off + sz <= o.ssize
    ensures GetInt(PutInt(buf, o, off, sz, v), o, off, sz) == Signed(v % Pow256(sz), sz)
  {
    var a := o.base + off;
    assert PutInt(buf, o, off, sz, v)[a..a + sz] == LE(v, sz);
    UnLEofLE(v, sz);
  }

  lemma BitRoundTrip(buf: seq<byte>, o: Obj, bit: nat, v: bool, other: nat)
    requires Readable(buf, o) && bit / 8 < o.ssize && other / 8 < o.ssize
    ensures GetBit(PutBit(buf, o, bit, v), o, other) == if other == bit then v else GetBit(buf, o, other)
  {
    hide Bit, SetBit;
    var k := o.base + bit / 8;
    Pow2Byte();
    SetBitSpec(buf[k], bit % 8, v, other % 8, 8);
    if other / 8 == bit / 8 && other != bit {
      assert other % 8 != bit % 8;
    }
  }

  /** The field that was written reads back as the value, cut to the field's width. */
  lemma WriteThenRead(fields: seq<Field>, align: nat, buf: seq<byte>, o: Obj, i: nat, v: int)
    requires ValidFields(fields) && align in {0, 1, 2, 4, 8} && i < |fields| && fields[i].Scalar?
    requires HasType(o, CompileMsg(fields, align)) && Readable(buf, o)
    ensures var tag := CompileMsg(fields, align).tags[i];
            ReadField(WriteField(buf, o, fields[i].size, tag, v), o, fields[i], tag) == Stored(fields[i].size, v)
  {
    hide GetInt, PutInt, GetBit, PutBit, CompileMsg;
    SlotInType(fields, align, i);
    var size, tag := fields[i].size, CompileMsg(fields, align).tags[i];
    if size == 0 {
      BitRoundTrip(buf, o, tag, v != 0, tag);
    } else {
      IntRoundTrip(buf, o, tag, size, v);
    }
  }

  // ---------------------------------------------------------------- nothing else changes

  /** Which bytes a write touches. */
  lemma WriteTouches(buf: seq<byte>, o: Obj, size: nat, tag: nat, v: int)
    requires Readable(buf, o)
    ensures var r := WriteField(buf, o, size, tag, v);
            forall x :: 0 <= x < |buf| && !(o.base <= x < o.base + o.ssize) ==> r[x] == buf[x]
    ensures var r := WriteField(buf, o, size, tag, v);
            var lo, hi := if size == 0 then tag / 8 else tag, if size == 0 then tag / 8 + 1 else tag + size;
            forall x :: 0 <= x < |buf| && !(o.base + lo <= x < o.base + hi) ==> r[x] == buf[x]
  {
    hide SetBit;
    if size == 0 && tag / 8 < o.ssize {
      SpliceAt(buf, o.base + tag / 8, [NewByte(buf[o.base + tag / 8], tag % 8, v != 0)]);
    } else if size != 0 && tag + size <= o.ssize {
      SpliceAt(buf, o.base + tag, LE(v, size));
    }
  }

  lemma IntUntouched(buf: seq<byte>, r: seq<byte>, o: Obj, off: nat, sz: nat)
    requires Readable(buf, o) && |r| == |buf|
    requires forall x :: o.base + off <= x < o.base + off + sz && x < |buf| ==> r[x] == buf[x]
    ensures GetInt(r, o, off, sz) == GetInt(buf, o, off, sz)
  {
    if off + sz <= o.ssize {
      assert r[o.base + off..o.base + off + sz] == buf[o.base + off..o.base + off + sz];
    }
  }

  lemma PtrUntouched(buf: seq<byte>, r: seq<byte>, o: Obj, i: nat)
    requires Readable(buf, o) && |r| == |buf|
    requires forall x :: o.base + PtrOffs(o, i) <= x < o.base + PtrOffs(o, i) + 4 && x < |buf| ==> r[x] == buf[x]
    ensures RelPtr(r, o, i) == RelPtr(buf, o, i)
  {
    if i < o.psize {
      var a := o.base + PtrOffs(o, i);
      assert r[a..a + 4] == buf[a..a + 4];
    }
  }

  /** Writing one scalar field leaves every other field of the element as it was: integers, bools and
      pointers alike. */
  lemma OthersUnchanged(fields: seq<Field>, align: nat, buf: seq<byte>, o: Obj, i: nat, v: int, j: nat)
    requires ValidFields(fields) && align in {0, 1, 2, 4, 8}
    requires i < |fields| && fields[i].Scalar? && j < |fields| && j != i
    requires HasType(o, CompileMsg(fields, align)) && Readable(buf, o)
    ensures var t := CompileMsg(fields, align);
            ReadField(WriteField(buf, o, fields[i].size, t.tags[i], v), o, fields[j], t.tags[j])
            == ReadField(buf, o, fields[j], t.tags[j])
  {
    hide CompileMsg, WriteField, GetInt, GetBit, RelPtr;
    var t := CompileMsg(fields, align);
    var r := WriteField(buf, o, fields[i].size, t.tags[i], v);
    WriteTouches(buf, o, fields[i].size, t.tags[i], v);
    SlotInType(fields, align, i);
    match fields[j]
    case Pointer =>
      PtrUntouched(buf, r, o, t.tags[j]);
    case Scalar(size) =>
      SlotsApart(fields, align, i, j);
      SlotInType(fields, align, j);
      if size != 0 {
        IntUntouched(buf, r, o, t.tags[j], size);
      } else if fields[i].size == 0 {
        BitsApart(buf, o, t.tags[i], v != 0, t.tags[j]);
      } else {
        BitUntouched(buf, r, o, t.tags[j]);
      }
  }

  lemma BitsApart(buf: seq<byte>, o: Obj, bit: nat, v: bool, other: nat)
    requires Readable(buf, o) && bit < 8 * o.ssize && other < 8 * o.ssize && bit != other
    ensures GetBit(WriteField(buf, o, 0, bit, if v then 1 else 0), o, other) == GetBit(buf, o, other)
    ensures forall w: int :: (w != 0) == v ==>
              GetBit(WriteField(buf, o, 0, bit, w), o, other) == GetBit(buf, o, other)
  {
    BitRoundTrip(buf, o, bit, v, other);
    hide GetBit, PutBit;
  }

  lemma BitUntouched(buf: seq<byte>, r: seq<byte>, o: Obj, bit: nat)
    requires Readable(buf, o) && |r| == |buf|
    requires o.base + bit / 8 < |buf| ==> r[o.base + bit / 8] == buf[o.base + bit / 8]
    ensures GetBit(r, o, bit) == GetBit(buf, o, bit)
  {
  }

  /** Storing a pointer leaves every scalar and every other pointer of the element as it was. */
  lemma PointerLeavesOthers(fields: seq<Field>, align: nat, buf: seq<byte>, o: Obj, i: nat, v: Obj, j: nat)
    requires ValidFields(fields) && align in {0, 1, 2, 4, 8}
    requires i < |fields| && fields[i].Pointer? && j < |fields| && j != i
    requires HasType(o, CompileMsg(fields, align)) && Readable(buf, o)
    ensures var t := CompileMsg(fields, align);
            ReadField(PutRel(buf, o, t.tags[i], v), o, fields[j], t.tags[j])
            == ReadField(buf, o, fields[j], t.tags[j])
  {
    hide CompileMsg, GetInt, GetBit, RelPtr;
    var t := CompileMsg(fields, align);
    var tag := t.tags[i];
    var r := PutRel(buf, o, tag, v);
    if tag < o.psize {
      SpliceAt(buf, o.base + PtrOffs(o, tag), LE((v.base - 8 - (o.base + PtrOffs(o, tag))) / 4, 4));
      hide PutRel;
      match fields[j]
      case Pointer =>
        if i < j {
          PointerTags(fields, align, i, j);
        } else {
          PointerTags(fields, align, j, i);
        }
        PtrUntouched(buf, r, o, t.tags[j]);
      case Scalar(size) =>
        SlotInType(fields, align, j);
        if size == 0 {
          BitUntouched(buf, r, o, t.tags[j]);
        } else {
          IntUntouched(buf, r, o, t.tags[j], size);
        }
    }
  }

  /** Elements of one array do not overlap, so writing a field of one element leaves every field of every
      other element, of whatever type they are read, as it was. */
  lemma OtherElements(buf: seq<byte>, o: Obj, e: nat, d: nat, size: nat, tag: nat, v: int, f: Field, other: nat)
    requires ElemSize(o) != 0 && e < o.nelem && d < o.nelem && e != d
    requires Readable(buf, GetElem(o, e)) && Readable(buf, GetElem(o, d))
    ensures ReadField(WriteField(buf, GetElem(o, e), size, tag, v), GetElem(o, d), f, other)
         == ReadField(buf, GetElem(o, d), f, other)
  {
    hide WriteField, GetBit, GetInt, RelPtr;
    var p, q := GetElem(o, e), GetElem(o, d);
    ElementsApart(o, e, d);
    hide GetElem;
    WriteTouches(buf, p, size, tag, v);
    Elsewhere(buf, WriteField(buf, p, size, tag, v), q, f, other);
  }

  /** The same for a pointer that is stored in another element. */
  lemma PointerLeavesElements(buf: seq<byte>, o: Obj, e: nat, d: nat, i: nat, v: Obj, f: Field, other: nat)
    requires ElemSize(o) != 0 && e < o.nelem && d < o.nelem && e != d
    requires Readable(buf, GetElem(o, e)) && Readable(buf, GetElem(o, d))
    ensures ReadField(PutRel(buf, GetElem(o, e), i, v), GetElem(o, d), f, other)
         == ReadField(buf, GetElem(o, d), f, other)
  {
    hide GetBit, GetInt, RelPtr;
    var p, q := GetElem(o, e), GetElem(o, d);
    ElementsApart(o, e, d);
    hide GetElem;
    var r := PutRel(buf, p, i, v);
    if i < p.psize {
      var a := p.base + PtrOffs(p, i);
      SpliceAt(buf, a, LE((v.base - 8 - a) / 4, 4));
      SlotWithin(p, i);
      hide PutRel, ElemSize, PtrOffs;
      Elsewhere(buf, r, q, f, other);
    }
  }

  lemma SlotWithin(p: Obj, i: nat)
    requires i < p.psize
    ensures PtrOffs(p, i) + 4 <= ElemSize(p)
  {
  }

  lemma ElementsApart(o: Obj, e: nat, d: nat)
    requires ElemSize(o) != 0 && e < o.nelem && d < o.nelem && e != d
    ensures var p, q := GetElem(o, e), GetElem(o, d);
            && (p.base + ElemSize(o) <= q.base || q.base + ElemSize(o) <= p.base)
            && ElemSize(p) == ElemSize(o) == ElemSize(q) && p.ssize <= ElemSize(o)
  {
    StrideApart(e, d, ElemSize(o));
  }

  /** A read depends on the bytes of its element only. */
  lemma Elsewhere(buf: seq<byte>, r: seq<byte>, q: Obj, f: Field, tag: nat)
    requires Readable(buf, q) && |r| == |buf|
    requires forall x :: q.base <= x < q.base + ElemSize(q) ==> r[x] == buf[x]
    ensures ReadField(r, q, f, tag) == ReadField(buf, q, f, tag)
  {
    match f
    case Pointer =>
      if tag < q.psize {
        PtrUntouched(buf, r, q, tag);
      }
    case Scalar(size) =>
      if size == 0 {
        if tag / 8 < q.ssize {
          BitUntouched(buf, r, q, tag);
        }
      } else if tag + size <= q.ssize {
        IntUntouched(buf, r, q, tag, size);
      }
  }

  // ---------------------------------------------------------------- alignment

  lemma Divides(n: nat, a: nat, s: nat)
    requires a in {1, 2, 4, 8} && s in {1, 2, 4, 8} && s <= a && n % a == 0
    ensures n % s == 0
  {
    var k := if s == a then 1 else if 2 * s == a then 2 else if 4 * s == a then 4 else 8;
    Regroup(n / a, k, s);
    ModUnique(n, s, n / a * k, 0);
  }

  lemma Regroup(q: nat, k: nat, s: nat)
    ensures q * (k * s) == (q * k) * s
  {
  }

  lemma MultipleOf(e: nat, n: nat, s: nat)
    requires s > 0 && n % s == 0
    ensures (e * n) % s == 0
  {
    var k := n / s;
    assert e * (k * s) == (e * k) * s;
    ModUnique(e * n, s, e * k, 0);
  }

  /** Element sizes are multiples of every scalar size and, if there are pointers, of a word, although
      the alignment used for rounding is carried over from earlier messages. */
  lemma ElementStride(fields: seq<Field>, align: nat, i: nat)
    requires ValidFields(fields) && align in {0, 1, 2, 4, 8} && i < |fields|
    ensures var t := CompileMsg(fields, align);
            && (fields[i].Scalar? && fields[i].size > 0 ==> (t.ssize + 4 * t.psize) % fields[i].size == 0)
            && (fields[i].Pointer? ==> t.ssize % 4 == 0 && (t.ssize + 4 * t.psize) % 4 == 0)
  {
    hide MsgInv, LayFields, Inv, FinalSize, CompileMsg;
    var m := LayFields(fields, align);
    TagFacts(fields, align, i);
    var t := CompileMsg(fields, align);
    assert m.align > 1 ==> (t.ssize + 4 * t.psize) % m.align == 0;
    if fields[i].Pointer? {
      Divides(t.ssize + 4 * t.psize, m.align, 4);
    } else if fields[i].size > 1 {
      Divides(t.ssize + 4 * t.psize, m.align, fields[i].size);
    }
  }

  lemma AlignedAt(base: nat, e: nat, n: nat, c: nat, s: nat)
    requires s in {1, 2, 4, 8} && base % 8 == 0 && n % s == 0 && c % s == 0
    ensures (base + e * n + c) % s == 0
  {
    MultipleOf(e, n, s);
    SumsAlign(base, e * n, c, s);
  }

  lemma SumsAlign(a: nat, b: nat, c: nat, s: nat)
    requires s in {1, 2, 4, 8} && a % 8 == 0 && b % s == 0 && c % s == 0
    ensures (a + b + c) % s == 0
  {
    var k := if s == 1 then 8 else if s == 2 then 4 else if s == 4 then 2 else 1;
    var q := (a / 8) * k + b / s + c / s;
    assert a + b + c == q * s by { SumOfMultiples(a, b, c, s, k); }
    ModUnique(a + b + c, s, q, 0);
  }

  lemma SumOfMultiples(a: nat, b: nat, c: nat, s: nat, k: nat)
    requires s > 0 && k * s == 8 && a % 8 == 0 && b % s == 0 && c % s == 0
    ensures a + b + c == ((a / 8) * k + b / s + c / s) * s
  {
    var x, y, z := a / 8, b / s, c / s;
    assert a == x * 8 && b == y * s && c == z * s;
    assert x * (k * s) == (x * k) * s;
    assert (x * k + y + z) * s == (x * k) * s + y * s + z * s;
  }

  /** Every scalar of every element of an 8-aligned object lies at a multiple of its size. */
  lemma AlignedScalars(fields: seq<Field>, align: nat, base: nat, e: nat, i: nat)
    requires ValidFields(fields) && align in {0, 1, 2, 4, 8} && i < |fields| && base % 8 == 0
    requires fields[i].Scalar? && fields[i].size > 0
    ensures var t := CompileMsg(fields, align);
            (base + e * (t.ssize + 4 * t.psize) + t.tags[i]) % fields[i].size == 0
  {
    hide MsgInv, LayFields, Inv, FinalSize, CompileMsg;
    var t := CompileMsg(fields, align);
    ElementStride(fields, align, i);
    TagFacts(fields, align, i);
    AlignedAt(base, e, t.ssize + 4 * t.psize, t.tags[i], fields[i].size);
  }

  /** Every pointer of every element lies at a multiple of 4, and a type with pointers has a word-aligned
      scalar part. */
  lemma AlignedPointers(fields: seq<Field>, align: nat, base: nat, e: nat, i: nat)
    requires ValidFields(fields) && align in {0, 1, 2, 4, 8} && i < |fields| && base % 8 == 0
    requires fields[i].Pointer?
    ensures var t := CompileMsg(fields, align);
            t.ssize % 4 == 0 && (base + e * (t.ssize + 4 * t.psize) + (t.ssize + 4 * t.tags[i])) % 4 == 0
  {
    hide CompileMsg;
    var t := CompileMsg(fields, align);
    ElementStride(fields, align, i);
    AlignedAt(base, e, t.ssize + 4 * t.psize, t.ssize + 4 * t.tags[i], 4);
  }
}
