/** The growable byte buffer and its in-place writers (include/nbuf.h). */
module Buffer {
  import opened Bytes
  import opened Wire
  import opened Pool
  import opened Simulation

  /** Buffers stay below half of the 64-bit address range. */
  const MAX_LEN := 0x8000_0000_0000_0000
  const ALLOC_MIN := 64

  class Buffer {
    var base: array<byte>
    var len: nat
    /** Builder buffers carry their offset in the flat buffer, in words, and their id. */
    var offset: nat
    var id: nat
    /** Bytes copied by all reallocations so far. */
    ghost var moved: nat

    ghost predicate Valid()
      reads this
    {
      len <= base.Length && moved <= base.Length
    }

    function Contents(): (s: seq<byte>)
      requires Valid()
      reads this, base
      ensures |s| == len
    {
      base[..len]
    }

    constructor (id: nat)
      ensures Valid() && fresh(base) && Contents() == [] && this.id == id && offset == 0
      ensures base.Length == 0 && moved == 0
    {
      base := new byte[0];
      len := 0;
      offset := 0;
      this.id := id;
      moved := 0;
    }

    /** Makes room for `inc` more bytes by doubling the capacity.  The contents survive; the new
        capacity is the old one, the minimum, or less than twice what is needed; and all copying ever
        done stays within the capacity. */
    method Reserve(inc: nat)
      requires Valid() && len + inc <= MAX_LEN
      modifies this`base, this`moved
      ensures Valid() && (base == old(base) || fresh(base))
      ensures Contents() == old(Contents())
      ensures base.Length - len >= inc
      ensures base.Length == old(base.Length) || base.Length == ALLOC_MIN || base.Length < 2 * (len + inc)
    {
      var cap := base.Length;
      if cap == 0 {
        cap := ALLOC_MIN;
      }
      while inc > cap - len
        invariant len <= cap && cap > 0
        invariant cap == base.Length || base.Length == 0 || cap >= 2 * base.Length
        invariant cap == base.Length || cap == ALLOC_MIN || cap < 2 * (len + inc)
        decreases len + inc - cap
      {
        cap := cap * 2;
      }
      if cap > base.Length {
        var bigger := new byte[cap](_ => 0);
        forall i | 0 <= i < len {
          bigger[i] := base[i];
        }
        moved := moved + len;
        base := bigger;
      }
    }

    /** Stores bytes w at position a. */
    method Store(a: nat, w: seq<byte>)
      requires Valid() && a + |w| <= len
      modifies base
      ensures Contents() == Splice(old(Contents()), a, w)
    {
      forall i | 0 <= i < |w| {
        base[a + i] := w[i];
      }
      assert Contents() == Splice(old(Contents()), a, w);
    }

    /** Clears `inc` reserved bytes behind the end and takes them into the buffer. */
    method Extend(inc: nat)
      requires Valid() && len + inc <= base.Length
      modifies this`len, base
      ensures Valid() && Contents() == old(Contents()) + Zeros(inc)
    {
      forall i | 0 <= i < inc {
        base[len + i] := 0;
      }
      len := len + inc;
    }

    /** Appends a zeroed object and returns its handle. */
    method Create(o: Obj) returns (r: Obj)
      requires Valid() && ValidShape(o) && len + |NewObj(o)| <= MAX_LEN
      modifies this`base, this`len, this`moved, base
      ensures Valid() && (base == old(base) || fresh(base))
      ensures Contents() == old(Contents()) + NewObj(o)
      ensures r == o.(base := old(len) + 8)
    {
      var hdr := HeaderWord(o);
      var payload := if o.ssize == 0 && o.psize == 0 then (o.nelem + 7) % U32 / 8 else o.nelem * ElemSize(o);
      var totalsz := RoundUp(8 + payload, 8);
      assert payload == PayloadSize(o);
      assert totalsz == |NewObj(o)| by { RoundUpProps(8 + PayloadSize(o), 8); }
      Reserve(totalsz);
      var at := len;
      Extend(totalsz);
      Store(at, LE(hdr, 8));
      assert Contents() == old(Contents()) + NewObj(o);
      r := o.(base := at + 8);
    }

    /** Grows an object to n elements if it ends the buffer; otherwise leaves it alone. */
    method Resize(o: Obj, n: nat) returns (r: Obj)
      requires Valid() && 8 <= o.base <= len
      requires RoundUp(o.base + PayloadSize(o), 8) <= RoundUp(o.base + PayloadSize(o.(nelem := n)), 8)
      requires ValidShape(o.(nelem := n)) && len + |NewObj(o.(nelem := n))| <= MAX_LEN
      modifies this`base, this`len, this`moved, base
      ensures Valid() && (base == old(base) || fresh(base))
      ensures (Contents(), r) == DirectGrow(old(Contents()), o, n)
    {
      hide PayloadSize, RoundUp, ValidShape, NewObj;
      var end := RoundUp(o.base + PayloadSize(o), 8);
      var newend := RoundUp(o.base + PayloadSize(o.(nelem := n)), 8);
      GrowRoom(o.(nelem := n));
      if end != len {
        return o;
      }
      if newend > end {
        Reserve(newend - end);
      }
      Extend(newend - end);
      Store(o.base - 8, LE(n, 4));
      r := o.(nelem := n);
    }

    method PutInt(o: Obj, off: nat, sz: nat, v: int)
      requires Valid() && Readable(Contents(), o)
      modifies base
      ensures Contents() == Wire.PutInt(old(Contents()), o, off, sz, v)
    {
      if off + sz <= o.ssize {
        Store(o.base + off, LE(v, sz));
      }
    }

    method PutBit(o: Obj, bit: nat, v: bool)
      requires Valid() && Readable(Contents(), o)
      modifies base
      ensures Contents() == Wire.PutBit(old(Contents()), o, bit, v)
    {
      if bit / 8 < o.ssize {
        var k := o.base + bit / 8;
        Store(k, [NewByte(base[k], bit % 8, v)]);
      }
    }

    /** Stores the distance, in words, from slot i to the header of v. */
    method PutPtr(r: Obj, i: nat, v: Obj)
      requires Valid() && Readable(Contents(), r)
      modifies base
      ensures Contents() == PutRel(old(Contents()), r, i, v)
    {
      if i >= r.psize {
        return;
      }
      var ptrBase := r.base + PtrOffs(r, i);
      Store(ptrBase, LE((v.base - 8 - ptrBase) / 4, 4));
    }

    /** Creates a string object, fills it and links it. */
    method PutStr(r: Obj, i: nat, s: seq<byte>) returns (str: Obj)
      requires Valid() && Readable(Contents(), r)
      requires |s| + 1 < U32 && len + |NewObj(StrShape(s))| <= MAX_LEN
      modifies this`base, this`len, this`moved, base
      ensures Valid() && (base == old(base) || fresh(base))
      ensures str == StrShape(s).(base := old(len) + 8)
      ensures str.base + |s| <= old(len) + |NewObj(StrShape(s))|
      ensures Contents() == PutRel(Splice(old(Contents()) + NewObj(StrShape(s)), str.base, s), r, i, str)
    {
      StrFits(s);
      str := Create(StrShape(s));
      Store(str.base, s);
      PutPtr(r, i, str);
    }
  }

  /** Growing never needs more than a fresh object of the new size. */
  lemma GrowRoom(o: Obj)
    ensures RoundUp(o.base + PayloadSize(o), 8) <= o.base + |NewObj(o)|
  {
    hide PayloadSize, RoundUp;
    RoundUpProps(o.base + PayloadSize(o), 8);
    NewObjSize(o);
  }

  lemma NewObjSize(o: Obj)
    ensures |NewObj(o)| == ObjSize(o) >= 8 + PayloadSize(o)
  {
    hide PayloadSize;
    RoundUpProps(8 + PayloadSize(o), 8);
  }
}
