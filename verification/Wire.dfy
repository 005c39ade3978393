/** The wire format: object headers, handles, element addressing, and the in-place
    accessors of include/nbuf.h, as functions of the buffer contents. */
module Wire {
  import opened Bytes

  const U16 := 0x1_0000
  const U32 := 0x1_0000_0000
  const U48 := 0x1_0000_0000_0000
  const U64 := 0x1_0000_0000_0000_0000

  /** A handle to an object or to one of its elements: where its bytes start, and its header fields. */
  datatype Obj = Obj(base: nat, nelem: nat, ssize: nat, psize: nat)

  /** The handle that readers hand out when there is nothing to read. */
  const NULL := Obj(0, 0, 0, 0)

  function RoundUp(x: nat, n: nat): (r: nat)
    requires n > 0
  {
    var y, m := x, n;
    (y + m - 1) / m * m
  }

  /** Byte offset of pointer i inside an element. */
  function PtrOffs(o: Obj, i: nat): nat {
    var s, j := o.ssize, i;
    s + 4 * j
  }

  function ElemSize(o: Obj): nat {
    var h := o;
    PtrOffs(h, h.psize)
  }

  /** Size of n elements of a positive size. */
  function ListBytes(size: nat, n: nat): nat {
    var s, m := size, n;
    s * m
  }

  /** Size of n bits; the count is rounded up in 32-bit arithmetic. */
  function BitBytes(n: nat): nat {
    var m := n;
    (m + 7) % U32 / 8
  }

  /** Size of all elements. */
  function PayloadSize(o: Obj): nat {
    var h := o;
    if ElemSize(h) != 0 then ListBytes(ElemSize(h), h.nelem) else BitBytes(h.nelem)
  }

  predicate InRange(o: Obj) {
    o.nelem < U32 && o.ssize < U16 && o.psize < U16
  }

  function HeaderWord(o: Obj): nat {
    var h := o;
    h.nelem + h.ssize * U32 + h.psize * U48
  }

  function HeaderBytes(o: Obj): (s: seq<byte>)
    ensures |s| == 8
  {
    LE(HeaderWord(o), 8)
  }

  /** The object whose header starts at byte `base`, before any validation of its extent. */
  function HeaderAt(buf: seq<byte>, base: nat): (o: Obj)
    requires base + 8 <= |buf|
    ensures InRange(o) && o.base == base + 8
  {
    UnLEBound(buf[base..base + 8]);
    Pow256Values();
    var hdr := UnLE(buf[base..base + 8]);
    Obj(base + 8, hdr % U32, hdr / U32 % U16, hdr / U48)
  }

  /** Reads and validates an object header. */
  function ObjInit(buf: seq<byte>, base: nat): (o: Obj)
    ensures InRange(o)
  {
    if base + 8 > |buf| then NULL
    else
      var o := HeaderAt(buf, base);
      if o.nelem > 0 && (PayloadSize(o) == 0 || o.base + PayloadSize(o) > |buf|) then NULL else o
  }

  /** The handle of element i; elements of a bit list are addressed by the byte they live in. */
  function GetElem(o: Obj, i: nat): Obj {
    var h, j := o, i;
    if j < h.nelem then
      Obj(h.base + (if ElemSize(h) == 0 then j / 8 else j * ElemSize(h)),
          1, if ElemSize(h) == 0 then 1 else h.ssize, h.psize)
    else NULL
  }

  /** Everything one element occupies lies inside the buffer. */
  predicate Readable(buf: seq<byte>, o: Obj) {
    o.base + ElemSize(o) <= |buf|
  }

  /** A pointer word, sign-extended; out-of-range slots read as null. */
  function RelPtr(buf: seq<byte>, o: Obj, i: nat): int
    requires Readable(buf, o)
  {
    if i >= o.psize then 0
    else Signed(UnLE(buf[o.base + PtrOffs(o, i)..o.base + PtrOffs(o, i) + 4]), 4)
  }

  /** Follows a relative pointer; addresses are computed in 64-bit wrap-around arithmetic. */
  function GetPtr(buf: seq<byte>, o: Obj, i: nat): (r: Obj)
    requires Readable(buf, o)
  {
    if RelPtr(buf, o, i) == 0 then NULL
    else
      var base := (RelPtr(buf, o, i) * 4 + o.base + PtrOffs(o, i)) % U64;
      if base < |buf| then ObjInit(buf, base) else NULL
  }

  /** A scalar, sign-extended; fields beyond the scalar part read as 0. */
  function GetInt(buf: seq<byte>, o: Obj, off: nat, sz: nat): int
    requires Readable(buf, o)
  {
    if off + sz <= o.ssize then Signed(UnLE(buf[o.base + off..o.base + off + sz]), sz) else 0
  }

  /** Stores the low sz bytes of v; fields beyond the scalar part are ignored. */
  function PutInt(buf: seq<byte>, o: Obj, off: nat, sz: nat, v: int): (r: seq<byte>)
    requires Readable(buf, o)
    ensures |r| == |buf|
  {
    if off + sz <= o.ssize then Splice(buf, o.base + off, LE(v, sz)) else buf
  }

  /** Bit j of a byte. */
  predicate Bit(b: nat, j: nat) {
    if j == 0 then b % 2 == 1 else Bit(b / 2, j - 1)
  }

  function Pow2(n: nat): (p: nat)
    ensures p > 0
  {
    if n == 0 then 1 else 2 * Pow2(n - 1)
  }

  /** b with bit j set or cleared. */
  function SetBit(b: nat, j: nat, v: bool): nat {
    if j == 0 then b / 2 * 2 + (if v then 1 else 0) else b % 2 + 2 * SetBit(b / 2, j - 1, v)
  }

  /** Setting one bit keeps the others and stays within the width. */
  lemma {:induction false} SetBitSpec(b: nat, j: nat, v: bool, k: nat, n: nat)
    requires j < n && b < Pow2(n)
    ensures SetBit(b, j, v) < Pow2(n)
    ensures Bit(SetBit(b, j, v), k) == if k == j then v else Bit(b, k)
  {
    if j > 0 {
      assert b / 2 < Pow2(n - 1);
      SetBitSpec(b / 2, j - 1, v, if k == 0 then 0 else k - 1, n - 1);
      BitOfPair(b % 2, SetBit(b / 2, j - 1, v), k);
      BitOfPair(b % 2, b / 2, k);
    } else {
      BitOfPair(if v then 1 else 0, b / 2, k);
      BitOfPair(b % 2, b / 2, k);
    }
  }

  lemma BitOfPair(low: nat, high: nat, k: nat)
    requires low < 2
    ensures Bit(low + 2 * high, k) == if k == 0 then low == 1 else Bit(high, k - 1)
  {
    assert (low + 2 * high) / 2 == high;
  }

  lemma Pow2Byte()
    ensures Pow2(8) == 256
  {
    assert Pow2(4) == 16 && Pow2(6) == 64;
  }

  predicate GetBit(buf: seq<byte>, o: Obj, bit: nat)
    requires Readable(buf, o)
  {
    bit / 8 < o.ssize && Bit(buf[o.base + bit / 8], bit % 8)
  }

  function PutBit(buf: seq<byte>, o: Obj, bit: nat, v: bool): (r: seq<byte>)
    requires Readable(buf, o)
    ensures |r| == |buf|
  {
    if bit / 8 >= o.ssize then buf
    else
      var k := o.base + bit / 8;
      Pow2Byte();
      SetBitSpec(buf[k], bit % 8, v, 0, 8);
      Splice(buf, k, [SetBit(buf[k], bit % 8, v)])
  }

  /** The header fields survive encoding and decoding. */
  lemma HeaderRoundTrip(o: Obj, buf: seq<byte>, base: nat)
    requires InRange(o) && base + 8 <= |buf| && buf[base..base + 8] == HeaderBytes(o)
    ensures HeaderAt(buf, base) == o.(base := base + 8)
  {
    var w := HeaderWord(o);
    UnLEofLE(w, 8);
    Pow256Values();
    ModUnique(w, U48, o.psize, o.nelem + o.ssize * U32);
    ModUnique(w, U32, o.ssize + o.psize * U16, o.nelem);
    ModUnique(o.ssize + o.psize * U16, U16, o.psize, o.ssize);
    assert w < U64;
    ModUnique(w, U64, 0, w);
  }

  /** The first four header bytes alone carry the element count. */
  lemma HeaderCount(o: Obj, n: nat)
    requires InRange(o) && n < U32
    ensures HeaderBytes(o.(nelem := n)) == LE(n, 4) + HeaderBytes(o)[4..]
  {
    hide LE, HeaderWord;
    var hi := o.ssize + o.psize * U16;
    WordHalves(o);
    WordHalves(o.(nelem := n));
    LESplit(n, hi);
    LESplit(o.nelem, hi);
  }

  lemma WordHalves(o: Obj)
    ensures HeaderWord(o) == o.nelem + (o.ssize + o.psize * U16) * U32
  {
  }

  lemma LESplit(lo: nat, hi: nat)
    requires lo < U32
    ensures LE(lo + hi * U32, 8) == LE(lo, 4) + LE(hi, 4)
  {
    LEAppend(lo, hi, 4, 4);
    Pow256Values();
  }

  /** The header, byte by byte: count, scalar size, and number of pointers, each with its low byte first. */
  lemma HeaderLayout(o: Obj)
    requires InRange(o)
    ensures HeaderBytes(o) == LE(o.nelem, 4) + (LE(o.ssize, 2) + LE(o.psize, 2))
  {
    hide LE, HeaderWord;
    WordHalves(o);
    LESplit(o.nelem, o.ssize + o.psize * U16);
    Pow256Values();
    LEAppend(o.ssize, o.psize, 2, 2);
  }

  /** Bit j of a byte is the one of weight 2 to the power j. */
  lemma {:induction false} BitWeight(b: nat, j: nat)
    ensures Bit(b, j) <==> b / Pow2(j) % 2 == 1
  {
    if j > 0 {
      BitWeight(b / 2, j - 1);
      Halves(b, Pow2(j - 1));
    }
  }

  lemma Halves(b: nat, p: nat)
    requires p > 0
    ensures b / 2 / p == b / (2 * p)
  {
    var q, r := b / 2 / p, b / 2 % p;
    assert b / 2 == q * p + r;
    assert b == q * (2 * p) + (2 * r + b % 2) by { assert 2 * (q * p) == q * (2 * p); }
    ModUnique(b, 2 * p, q, 2 * r + b % 2);
  }

  lemma {:induction false} LEAppend(lo: int, hi: int, m: nat, n: nat)
    requires 0 <= lo < Pow256(m)
    ensures LE(lo + hi * Pow256(m), m + n) == LE(lo, m) + LE(hi, n)
    decreases m
  {
    if m > 0 {
      var p := Pow256(m - 1);
      var v := lo + hi * Pow256(m);
      assert hi * Pow256(m) == 256 * (hi * p) by { Assoc(hi, p); }
      assert v % 256 == lo % 256 && v / 256 == lo / 256 + hi * p;
      LEAppend(lo / 256, hi, m - 1, n);
    }
  }

  // ---------------------------------------------------------------- header validation

  /** Where element e of an object ends. */
  function ElemEnd(o: Obj, e: nat): nat {
    if ElemSize(o) == 0 then o.base + e / 8 + 1 else o.base + e * ElemSize(o) + ElemSize(o)
  }

  lemma MulMono(a: nat, b: nat, c: nat)
    requires a <= b
    ensures a * c <= b * c
  {
  }

  /** Different multiples of n are at least n apart. */
  lemma StrideApart(e: nat, d: nat, n: nat)
    requires e != d
    ensures e * n + n <= d * n || d * n + n <= e * n
  {
    if e < d {
      MulMono(e + 1, d, n);
      assert (e + 1) * n == e * n + n;
    } else {
      MulMono(d + 1, e, n);
      assert (d + 1) * n == d * n + n;
    }
  }

  lemma RoundUpProps(x: nat, n: nat)
    requires n > 0
    ensures x <= RoundUp(x, n) < x + n && RoundUp(x, n) % n == 0
  {
    var q := (x + n - 1) / n;
    assert x + n - 1 == q * n + (x + n - 1) % n;
    ModUnique(q * n, n, q, 0);
  }

  /** Validation is exact: a non-empty object is accepted if and only if its header is inside the
      buffer, its count is non-zero, and each one of its elements lies inside the buffer.  A bit list
      whose rounded-up count wraps around in 32 bits is refused by the zero-size test. */
  lemma HeaderValidation(buf: seq<byte>, base: nat)
    ensures ObjInit(buf, base).nelem > 0
       <==> base + 8 <= |buf|
            && var o := HeaderAt(buf, base);
               o.nelem > 0
               && (ElemSize(o) == 0 ==> o.nelem + 7 < U32)
               && (forall e :: 0 <= e < o.nelem ==> ElemEnd(o, e) <= |buf|)
  {
    if base + 8 <= |buf| {
      ExtentByElements(HeaderAt(buf, base), |buf|);
    }
  }

  /** An extent check on the total size amounts to a check of every element. */
  lemma ExtentByElements(o: Obj, len: nat)
    requires InRange(o)
    ensures o.nelem > 0 ==>
              (PayloadSize(o) != 0 && o.base + PayloadSize(o) <= len
               <==> (ElemSize(o) == 0 ==> o.nelem + 7 < U32)
                    && (forall e :: 0 <= e < o.nelem ==> ElemEnd(o, e) <= len))
  {
    if o.nelem > 0 {
      var last := o.nelem - 1;
      if ElemSize(o) == 0 {
        BitListExtent(o);
      } else {
        ElemListExtent(o);
      }
      forall e | 0 <= e < o.nelem
        ensures ElemEnd(o, e) <= ElemEnd(o, last)
      {
        MulMono(e, last, ElemSize(o));
      }
    }
  }

  lemma BitListExtent(o: Obj)
    requires InRange(o) && o.nelem > 0 && ElemSize(o) == 0
    ensures o.nelem + 7 < U32 ==> ElemEnd(o, o.nelem - 1) == o.base + PayloadSize(o) && PayloadSize(o) > 0
    ensures o.nelem + 7 >= U32 ==> PayloadSize(o) == 0
  {
    if o.nelem + 7 >= U32 {
      ModUnique(o.nelem + 7, U32, 1, o.nelem + 7 - U32);
    } else {
      ModUnique(o.nelem + 7, U32, 0, o.nelem + 7);
    }
  }

  lemma ElemListExtent(o: Obj)
    requires o.nelem > 0 && ElemSize(o) != 0
    ensures ElemEnd(o, o.nelem - 1) == o.base + PayloadSize(o) && PayloadSize(o) >= ElemSize(o)
  {
    var es := ElemSize(o);
    assert (o.nelem - 1) * es + es == o.nelem * es == es * o.nelem;
    MulMono(1, o.nelem, es);
  }

  /** Every element of an accepted object can be read, and no size computed on the way
      overflows 64-bit arithmetic. */
  lemma ValidatedElements(buf: seq<byte>, base: nat, e: nat)
    requires var o := ObjInit(buf, base); e < o.nelem
    ensures var o := ObjInit(buf, base);
            Readable(buf, GetElem(o, e)) && ElemSize(o) * o.nelem < 0x8_0000_0000_0000
  {
    HeaderValidation(buf, base);
    var o := ObjInit(buf, base);
    assert ElemEnd(o, e) <= |buf|;
    assert ElemSize(o) <= 0x4_FFFB;
    MulMono(o.nelem, U32, ElemSize(o));
    assert o.nelem * ElemSize(o) == ElemSize(o) * o.nelem;
  }
}
