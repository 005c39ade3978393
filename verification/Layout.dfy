/** The scalar layout allocator of the schema compiler (nbufc/t2b.c): a first-fit free list over
    padding holes, with eight bools packed to a byte. */
module Layout {
  import opened Bytes
  import opened Wire

  /** A run of free bytes in front of already placed scalars. */
  datatype Hole = Hole(offset: nat, size: nat)

  /** The bits a placed scalar occupies. */
  datatype Slot = Slot(start: nat, len: nat)

  /** The allocator: the list of holes; how many nodes precede the cell where the next hole will be
      hung; the next free bit of the open bool byte, if not a multiple of 8; the size so far. */
  datatype State = State(holes: seq<Hole>, link: nat, bit: nat, ssize: nat)

  const EMPTY := State([], 0, 0, 0)

  /** Scalar sizes of the schema language, in bytes; 0 stands for bool. */
  predicate ScalarSize(size: nat) {
    size in {0, 1, 2, 4, 8}
  }

  function SlotOf(size: nat, offset: nat): Slot {
    if size == 0 then Slot(offset, 1) else Slot(8 * offset, 8 * size)
  }

  // ---------------------------------------------------------------- the algorithm, step by step

  predicate Fits(h: Hole, size: nat)
    requires size > 0
  {
    h.size >= RoundUp(h.offset, size) - h.offset + size
  }

  function FirstFit(holes: seq<Hole>, size: nat): (i: nat)
    requires size > 0
    ensures i <= |holes|
    ensures i < |holes| ==> Fits(holes[i], size)
    ensures forall j :: 0 <= j < i ==> !Fits(holes[j], size)
  {
    if holes == [] then 0
    else if Fits(holes[0], size) then 0
    else 1 + FirstFit(holes[1..], size)
  }

  /** Takes `size` aligned bytes out of hole i, splitting, shrinking or removing it.  The link moves with
      the cell it designates; when a hole is split, the cell keeps its node and so comes to lie in front
      of the new one. */
  function Take(st: State, i: nat, size: nat): (r: (nat, State))
    requires size > 0 && i < |st.holes| && Fits(st.holes[i], size)
  {
    var p := st.holes[i];
    var offset := RoundUp(p.offset, size);
    var padding := offset - p.offset;
    var remain := p.size - padding - size;
    if padding > 0 then
      if remain > 0 then
        (offset, st.(holes := st.holes[..i] + [Hole(p.offset, padding), Hole(offset + size, remain)]
                              + st.holes[i + 1..],
                     link := if st.link > i + 1 then st.link + 1 else st.link))
      else (offset, st.(holes := st.holes[i := Hole(p.offset, padding)]))
    else if p.size > size then
      (offset, st.(holes := st.holes[i := Hole(p.offset + size, p.size - size)]))
    else
      (offset, st.(holes := st.holes[..i] + st.holes[i + 1..],
                   link := if st.link > i then st.link - 1 else st.link))
  }

  /** Hangs a new hole at the link, cutting off whatever was listed behind it. */
  function AddHole(st: State, h: Hole): State
    requires st.link <= |st.holes|
  {
    st.(holes := st.holes[..st.link] + [h], link := st.link + 1)
  }

  /** The holes that the next addition would cut off. */
  function Behind(st: State): seq<Hole>
    requires st.link <= |st.holes|
  {
    st.holes[st.link..]
  }

  /** Places at the end of the scalar part, leaving a hole if alignment demands one. */
  function PlaceAtEnd(st: State, size: nat): (nat, State)
    requires size > 0 && st.link <= |st.holes|
  {
    var offset := RoundUp(st.ssize, size);
    var padding := offset - st.ssize;
    var st' := if padding > 0 then AddHole(st, Hole(st.ssize, padding)) else st;
    (offset, st'.(ssize := offset + size))
  }

  /** The offset of a new scalar: in bytes, or in bits for a bool. */
  function CalculateOffset(st: State, size: nat): (r: (nat, State))
    requires st.link <= |st.holes|
  {
    if size == 0 then
      if st.bit % 8 != 0 then (st.bit, st.(bit := st.bit + 1))
      else
        var i := FirstFit(st.holes, 1);
        if i < |st.holes| then
          var (offset, st') := Take(st, i, 1);
          (8 * offset, st'.(bit := 8 * offset + 1))
        else (8 * st.ssize, st.(bit := 8 * st.ssize + 1, ssize := st.ssize + 1))
    else
      var i := FirstFit(st.holes, size);
      if i < |st.holes| then Take(st, i, size) else PlaceAtEnd(st, size)
  }

  /** This placement cuts listed holes off. */
  predicate Drops(st: State, size: nat)
    requires st.link <= |st.holes|
  {
    && size > 0
    && FirstFit(st.holes, size) == |st.holes|
    && st.ssize % size != 0
    && st.link < |st.holes|
  }

  // ---------------------------------------------------------------- what is placed, free and lost

  predicate In(s: Slot, b: nat) {
    s.start <= b < s.start + s.len
  }

  ghost predicate Occupied(placed: seq<Slot>, b: nat) {
    exists i :: 0 <= i < |placed| && In(placed[i], b)
  }

  predicate InHole(h: Hole, b: nat) {
    8 * h.offset <= b < 8 * (h.offset + h.size)
  }

  ghost predicate InHoles(holes: seq<Hole>, b: nat) {
    exists i :: 0 <= i < |holes| && InHole(holes[i], b)
  }

  predicate InOpenByte(st: State, b: nat) {
    st.bit % 8 != 0 && st.bit <= b < RoundUp(st.bit, 8)
  }

  /** A run of the allocator: its state, the slots handed out so far, the holes that were cut off, the
      number of bools, and the bytes taken by other scalars. */
  datatype Run = Run(st: State, placed: seq<Slot>, lost: seq<Hole>, bools: nat, bytes: nat)

  function Place(r: Run, size: nat): Run
    requires r.st.link <= |r.st.holes|
  {
    var (offset, st) := CalculateOffset(r.st, size);
    Run(st, r.placed + [SlotOf(size, offset)],
        if Drops(r.st, size) then r.lost + Behind(r.st) else r.lost,
        if size == 0 then r.bools + 1 else r.bools, r.bytes + size)
  }

  // ---------------------------------------------------------------- invariants

  ghost predicate Sorted(holes: seq<Hole>) {
    forall i, j :: 0 <= i < j < |holes| ==> holes[i].offset + holes[i].size <= holes[j].offset
  }

  /** A hole is not empty, ends before the scalar part does, and the bit behind it is in use. */
  ghost predicate Backed(h: Hole, placed: seq<Slot>, ssize: nat) {
    h.size > 0 && h.offset + h.size < ssize && Occupied(placed, 8 * (h.offset + h.size))
  }

  ghost predicate AllBacked(holes: seq<Hole>, placed: seq<Slot>, ssize: nat) {
    forall i :: 0 <= i < |holes| ==> Backed(holes[i], placed, ssize)
  }

  /** Bit b belongs to a listed hole, to the open bool byte, or to a hole that was cut off. */
  ghost predicate Free(r: Run, b: nat) {
    InHoles(r.st.holes, b) || InOpenByte(r.st, b) || InHoles(r.lost, b)
  }

  /** The bits below the current size are divided between the placed scalars, the listed holes, the rest
      of the open bool byte and the holes cut off; nothing lies beyond. */
  ghost predicate Divided(r: Run) {
    && (forall b: nat :: 0 <= b < 8 * r.st.ssize ==> (Occupied(r.placed, b) <==> !Free(r, b)))
    && (forall b: nat :: b >= 8 * r.st.ssize ==> !Occupied(r.placed, b))
    && (forall b: nat :: InHoles(r.st.holes, b) ==> !InOpenByte(r.st, b) && !InHoles(r.lost, b))
    && (forall b: nat :: InOpenByte(r.st, b) ==> b < 8 * r.st.ssize && !InHoles(r.lost, b))
  }

  /** No two scalars share a bit. */
  ghost predicate Disjoint(placed: seq<Slot>) {
    forall i, j, b :: 0 <= i < j < |placed| && In(placed[i], b) ==> !In(placed[j], b)
  }

  predicate OpenFirst(st: State) {
    st.bit % 8 != 0 ==> forall i :: 0 <= i < |st.holes| ==> st.bit < 8 * st.holes[i].offset
  }

  ghost predicate Inv(r: Run) {
    && r.st.link <= |r.st.holes|
    && Sorted(r.st.holes)
    && AllBacked(r.st.holes, r.placed, r.st.ssize)
    && AllBacked(r.lost, r.placed, r.st.ssize)
    && OpenFirst(r.st)
    && Divided(r)
    && Disjoint(r.placed)
  }

  // ---------------------------------------------------------------- holes

  lemma OccupiedSnoc(placed: seq<Slot>, s: Slot, b: nat)
    ensures Occupied(placed + [s], b) <==> Occupied(placed, b) || In(s, b)
  {
    var q := placed + [s];
    if Occupied(placed, b) {
      var i :| 0 <= i < |placed| && In(placed[i], b);
      assert In(q[i], b);
    }
    if In(s, b) {
      assert In(q[|placed|], b);
    }
  }

  lemma InHolesConcat(x: seq<Hole>, y: seq<Hole>, b: nat)
    ensures InHoles(x + y, b) <==> InHoles(x, b) || InHoles(y, b)
  {
    var z := x + y;
    if InHoles(x, b) {
      var i :| 0 <= i < |x| && InHole(x[i], b);
      assert InHole(z[i], b);
    }
    if InHoles(y, b) {
      var i :| 0 <= i < |y| && InHole(y[i], b);
      assert InHole(z[|x| + i], b);
    }
    if InHoles(z, b) {
      var i :| 0 <= i < |z| && InHole(z[i], b);
      assert if i < |x| then InHole(x[i], b) else InHole(y[i - |x|], b);
    }
  }

  lemma InHolesOne(h: Hole, b: nat)
    ensures InHoles([h], b) <==> InHole(h, b)
  {
    assert [h][0] == h;
  }

  /** Replacing hole p by the pieces that are left when some of its bits are taken. */
  lemma ReplaceHole(pre: seq<Hole>, p: Hole, mid: seq<Hole>, post: seq<Hole>, s: Slot)
    requires Sorted(pre + [p] + post) && Sorted(mid)
    requires forall i :: 0 <= i < |mid| ==>
               p.offset <= mid[i].offset && mid[i].offset + mid[i].size <= p.offset + p.size
    requires forall b: nat :: InHoles(mid, b) <==> InHole(p, b) && !In(s, b)
    requires forall b: nat :: In(s, b) ==> InHole(p, b)
    ensures Sorted(pre + mid + post)
    ensures forall b: nat :: InHoles(pre + mid + post, b) <==> InHoles(pre + [p] + post, b) && !In(s, b)
  {
    var was, now := pre + [p] + post, pre + mid + post;
    ReplaceSorted(pre, p, mid, post);
    forall b: nat
      ensures InHoles(now, b) <==> InHoles(was, b) && !In(s, b)
    {
      InHolesConcat(pre + mid, post, b);
      InHolesConcat(pre, mid, b);
      InHolesConcat(pre + [p], post, b);
      InHolesConcat(pre, [p], b);
      InHolesOne(p, b);
      if InHole(p, b) {
        Apart(pre, p, post, b);
      }
    }
  }

  lemma ReplaceSorted(pre: seq<Hole>, p: Hole, mid: seq<Hole>, post: seq<Hole>)
    requires Sorted(pre + [p] + post) && Sorted(mid)
    requires forall i :: 0 <= i < |mid| ==>
               p.offset <= mid[i].offset && mid[i].offset + mid[i].size <= p.offset + p.size
    ensures Sorted(pre + mid + post)
  {
    var was, now := pre + [p] + post, pre + mid + post;
    forall i, j | 0 <= i < j < |now|
      ensures now[i].offset + now[i].size <= now[j].offset
    {
      var a := if i < |pre| then i else if i < |pre| + |mid| then |pre| else i - |mid| + 1;
      var c := if j < |pre| then j else if j < |pre| + |mid| then |pre| else j - |mid| + 1;
      if a == c {
        assert mid[i - |pre|].offset + mid[i - |pre|].size <= mid[j - |pre|].offset;
      } else {
        assert was[a].offset + was[a].size <= was[c].offset;
        assert now[i].offset + now[i].size <= was[a].offset + was[a].size;
        assert was[c].offset <= now[j].offset;
      }
    }
  }

  /** Sorted holes do not overlap. */
  lemma Apart(pre: seq<Hole>, p: Hole, post: seq<Hole>, b: nat)
    requires Sorted(pre + [p] + post) && InHole(p, b)
    ensures !InHoles(pre, b) && !InHoles(post, b)
  {
    var z := pre + [p] + post;
    assert z[|pre|] == p;
    forall i | 0 <= i < |pre|
      ensures !InHole(pre[i], b)
    {
      assert z[i] == pre[i] && z[i].offset + z[i].size <= z[|pre|].offset;
    }
    forall i | 0 <= i < |post|
      ensures !InHole(post[i], b)
    {
      assert z[|pre| + 1 + i] == post[i];
      assert z[|pre|].offset + z[|pre|].size <= z[|pre| + 1 + i].offset;
    }
  }

  lemma QuotientBound(q: nat, k: nat, n: nat)
    requires n > 0 && q * n < k * n + n
    ensures q * n <= k * n
  {
    if q > k {
      MulMono(k + 1, q, n);
    } else {
      MulMono(q, k, n);
    }
  }

  /** Rounding up gives the least multiple. */
  lemma RoundUpLeast(x: nat, n: nat, y: nat)
    requires n > 0 && x <= y && y % n == 0
    ensures RoundUp(x, n) <= y
  {
    var q, k := (x + n - 1) / n, y / n;
    assert q * n <= x + n - 1 && y == k * n;
    QuotientBound(q, k, n);
  }

  lemma RoundUpSizes(x: nat, size: nat)
    requires size in {1, 2, 4, 8}
    ensures x <= RoundUp(x, size) < x + size && RoundUp(x, size) % size == 0
    ensures forall y: nat :: y >= x && y % size == 0 ==> y >= RoundUp(x, size)
  {
    RoundUpProps(x, size);
    hide RoundUp;
    forall y: nat | y >= x && y % size == 0
      ensures y >= RoundUp(x, size)
    {
      RoundUpLeast(x, size, y);
    }
  }

  /** The pieces of a hole that remain when aligned bytes are taken out of it. */
  function Pieces(p: Hole, size: nat): seq<Hole>
    requires size > 0 && Fits(p, size)
  {
    var offset := RoundUp(p.offset, size);
    var remain := p.size - (offset - p.offset) - size;
    (if offset > p.offset then [Hole(p.offset, offset - p.offset)] else [])
    + (if remain > 0 then [Hole(offset + size, remain)] else [])
  }

  lemma PiecesSpec(p: Hole, size: nat)
    requires size in {1, 2, 4, 8} && Fits(p, size)
    ensures var s := SlotOf(size, RoundUp(p.offset, size));
            && (forall b: nat :: InHoles(Pieces(p, size), b) <==> InHole(p, b) && !In(s, b))
            && (forall b: nat :: In(s, b) ==> InHole(p, b))
    ensures Sorted(Pieces(p, size))
    ensures forall i :: 0 <= i < |Pieces(p, size)| ==>
              var m := Pieces(p, size)[i];
              && m.size > 0 && p.offset <= m.offset
              && (m.offset + m.size == RoundUp(p.offset, size) || m.offset + m.size == p.offset + p.size)
              && m.offset + m.size <= p.offset + p.size
  {
    RoundUpSizes(p.offset, size);
    var offset := RoundUp(p.offset, size);
    hide RoundUp;
    var remain := p.size - (offset - p.offset) - size;
    var x := if offset > p.offset then [Hole(p.offset, offset - p.offset)] else [];
    var y := if remain > 0 then [Hole(offset + size, remain)] else [];
    forall b: nat
      ensures InHoles(x + y, b) <==> InHole(p, b) && !In(SlotOf(size, offset), b)
    {
      InHolesConcat(x, y, b);
      InHolesOne(Hole(p.offset, offset - p.offset), b);
      if remain > 0 {
        InHolesOne(Hole(offset + size, remain), b);
      }
    }
  }

  /** Taking replaces the hole by its pieces and keeps the link inside the list. */
  lemma TakeSplits(st: State, i: nat, size: nat)
    requires size in {1, 2, 4, 8} && i < |st.holes| && Fits(st.holes[i], size) && st.link <= |st.holes|
    ensures var (offset, st') := Take(st, i, size);
            && offset == RoundUp(st.holes[i].offset, size)
            && st'.holes == st.holes[..i] + Pieces(st.holes[i], size) + st.holes[i + 1..]
            && st'.link <= |st'.holes| && st'.ssize == st.ssize && st'.bit == st.bit
  {
    RoundUpSizes(st.holes[i].offset, size);
    hide RoundUp;
    var p := st.holes[i];
    if RoundUp(p.offset, size) > p.offset {
      assert st.holes[i := Hole(p.offset, RoundUp(p.offset, size) - p.offset)]
          == st.holes[..i] + [Hole(p.offset, RoundUp(p.offset, size) - p.offset)] + st.holes[i + 1..];
    } else if p.size > size {
      assert st.holes[i := Hole(p.offset + size, p.size - size)]
          == st.holes[..i] + [Hole(p.offset + size, p.size - size)] + st.holes[i + 1..];
    }
  }

  // ---------------------------------------------------------------- every placement keeps the invariant

  /** How a placement that takes free bits changes the division of the scalar part. */
  ghost predicate TakesFree(r: Run, q: Run, s: Slot) {
    && q.placed == r.placed + [s]
    && q.st.ssize >= r.st.ssize
    && (forall b: nat :: b < 8 * r.st.ssize ==> (Free(q, b) <==> Free(r, b) && !In(s, b)))
    && (forall b: nat :: 8 * r.st.ssize <= b < 8 * q.st.ssize ==> (Free(q, b) <==> !In(s, b)))
    && (forall b: nat :: In(s, b) ==> b < 8 * q.st.ssize && (b < 8 * r.st.ssize ==> Free(r, b)))
  }

  ghost predicate Exclusive(r: Run) {
    && (forall b: nat :: InHoles(r.st.holes, b) ==> !InOpenByte(r.st, b) && !InHoles(r.lost, b))
    && (forall b: nat :: InOpenByte(r.st, b) ==> b < 8 * r.st.ssize && !InHoles(r.lost, b))
  }

  lemma StillDivided(r: Run, q: Run, s: Slot)
    requires Divided(r) && Disjoint(r.placed) && TakesFree(r, q, s) && Exclusive(q)
    ensures Divided(q) && Disjoint(q.placed)
  {
    hide Free, InHoles, InOpenByte;
    forall b: nat
      ensures Occupied(q.placed, b) <==> Occupied(r.placed, b) || In(s, b)
    {
      OccupiedSnoc(r.placed, s, b);
    }
    forall i, j, b | 0 <= i < j < |q.placed| && In(q.placed[i], b)
      ensures !In(q.placed[j], b)
    {
      if j == |r.placed| {
        assert In(r.placed[i], b);
        assert Occupied(r.placed, b);
      }
    }
  }

  lemma BackedGrows(holes: seq<Hole>, placed: seq<Slot>, ssize: nat, s: Slot, ssize': nat)
    requires AllBacked(holes, placed, ssize) && ssize <= ssize'
    ensures AllBacked(holes, placed + [s], ssize')
  {
    hide Occupied;
    forall i | 0 <= i < |holes|
      ensures Backed(holes[i], placed + [s], ssize')
    {
      assert Backed(holes[i], placed, ssize);
      OccupiedSnoc(placed, s, 8 * (holes[i].offset + holes[i].size));
    }
  }

  /** Taking bytes out of hole i, for a slot that starts with those bytes. */
  lemma TakeKeeps(r: Run, i: nat, size: nat, s: Slot)
    requires Inv(r) && size in {1, 2, 4, 8} && i < |r.st.holes| && Fits(r.st.holes[i], size)
    requires s.start == 8 * Take(r.st, i, size).0 && s.len > 0
    ensures var (offset, st) := Take(r.st, i, size);
            && st.link <= |st.holes| && st.ssize == r.st.ssize && st.bit == r.st.bit
            && Sorted(st.holes) && AllBacked(st.holes, r.placed + [s], st.ssize)
            && offset % size == 0 && offset >= r.st.holes[i].offset
            && offset + size <= r.st.holes[i].offset + r.st.holes[i].size
            && (forall b: nat :: InHoles(st.holes, b) <==>
                  InHoles(r.st.holes, b) && !In(SlotOf(size, offset), b))
            && (forall b: nat :: In(SlotOf(size, offset), b) ==> InHoles(r.st.holes, b))
  {
    hide Take, Fits, Pieces, InHoles, Divided, Disjoint, OpenFirst, Occupied, RoundUp;
    var p := r.st.holes[i];
    TakeSplits(r.st, i, size);
    RoundUpSizes(p.offset, size);
    PiecesSpec(p, size);
    var pre, post := r.st.holes[..i], r.st.holes[i + 1..];
    assert r.st.holes == pre + [p] + post;
    ReplaceHole(pre, p, Pieces(p, size), post, SlotOf(size, RoundUp(p.offset, size)));
    FitsInside(p, size);
    forall b: nat | In(SlotOf(size, RoundUp(p.offset, size)), b)
      ensures InHoles(r.st.holes, b)
    {
      HoleListed(r.st.holes, i, b);
    }
    PiecesBacked(r, i, size, s);
  }

  lemma FitsInside(p: Hole, size: nat)
    requires size in {1, 2, 4, 8} && Fits(p, size)
    ensures p.offset <= RoundUp(p.offset, size) && RoundUp(p.offset, size) + size <= p.offset + p.size
  {
    RoundUpSizes(p.offset, size);
  }

  lemma HoleListed(holes: seq<Hole>, i: nat, b: nat)
    requires i < |holes| && InHole(holes[i], b)
    ensures InHoles(holes, b)
  {
  }

  lemma PiecesBacked(r: Run, i: nat, size: nat, s: Slot)
    requires Inv(r) && size in {1, 2, 4, 8} && i < |r.st.holes| && Fits(r.st.holes[i], size)
    requires s.start == 8 * RoundUp(r.st.holes[i].offset, size) && s.len > 0
    ensures var p := r.st.holes[i];
            AllBacked(r.st.holes[..i] + Pieces(p, size) + r.st.holes[i + 1..], r.placed + [s], r.st.ssize)
  {
    hide Fits, Pieces, InHoles, Divided, Disjoint, OpenFirst, Occupied, RoundUp, Sorted, InHole;
    var p := r.st.holes[i];
    BackedGrows(r.st.holes, r.placed, r.st.ssize, s, r.st.ssize);
    assert Backed(p, r.placed, r.st.ssize);
    PiecesSpec(p, size);
    FitsInside(p, size);
    var mid := Pieces(p, size);
    OccupiedSnoc(r.placed, s, s.start);
    var q := r.st.holes[..i] + mid + r.st.holes[i + 1..];
    forall j | 0 <= j < |q|
      ensures Backed(q[j], r.placed + [s], r.st.ssize)
    {
      if j < i {
        assert Backed(r.st.holes[j], r.placed + [s], r.st.ssize);
      } else if j < i + |mid| {
        assert q[j] == mid[j - i];
        assert Backed(r.st.holes[i], r.placed + [s], r.st.ssize);
      } else {
        assert q[j] == r.st.holes[j - |mid| + 1];
        assert Backed(r.st.holes[j - |mid| + 1], r.placed + [s], r.st.ssize);
      }
    }
  }

  lemma OpenNext(bit: nat, b: nat)
    requires bit % 8 != 0
    ensures RoundUp(bit, 8) == 8 * (bit / 8 + 1)
    ensures (bit + 1) % 8 != 0 ==> RoundUp(bit + 1, 8) == RoundUp(bit, 8)
    ensures (bit + 1) % 8 == 0 ==> RoundUp(bit, 8) == bit + 1
  {
  }

  /** The next bool goes to the next bit of the open byte. */
  lemma PlaceInOpenByte(r: Run)
    requires Inv(r) && r.st.bit % 8 != 0
    ensures Inv(Place(r, 0))
  {
    hide InHoles, Occupied, RoundUp;
    var q, s := Place(r, 0), Slot(r.st.bit, 1);
    OpenNext(r.st.bit, 0);
    BackedGrows(r.st.holes, r.placed, r.st.ssize, s, r.st.ssize);
    BackedGrows(r.lost, r.placed, r.st.ssize, s, r.st.ssize);
    assert InOpenByte(r.st, r.st.bit);
    StillDivided(r, q, s);
  }

  /** A bool opens a byte of the first hole. */
  lemma PlaceBoolInHole(r: Run)
    requires Inv(r) && r.st.bit % 8 == 0 && FirstFit(r.st.holes, 1) < |r.st.holes|
    ensures Inv(Place(r, 0))
  {
    hide InHoles, Occupied, RoundUp, Take, AllBacked, Sorted;
    var i := FirstFit(r.st.holes, 1);
    FirstHoleFits(r);
    var (offset, st) := Take(r.st, i, 1);
    var q, s := Place(r, 0), Slot(8 * offset, 1);
    TakeKeeps(r, i, 1, s);
    OpenNext(8 * offset + 1, 0);
    LostBacked(r, s, st.ssize);
    RoundUpSizes(r.st.holes[0].offset, 1);
    TakeSplits(r.st, 0, 1);
    BackedSizes(st.holes, r.placed + [s], st.ssize);
    forall b: nat
      ensures In(SlotOf(1, offset), b) ==> b < 8 * r.st.ssize
      ensures In(SlotOf(1, offset), b) <==> In(s, b) || InOpenByte(q.st, b)
      ensures InOpenByte(q.st, b) ==> !In(s, b)
      ensures !InOpenByte(r.st, b)
    {
      HolesBelow(r, b);
    }
    assert q.st.holes == st.holes && q.lost == r.lost;
    assert TakesFree(r, q, s);
    StillDivided(r, q, s);
    HolesAfter(st.holes, offset, r);
  }

  lemma HolesBelow(r: Run, b: nat)
    requires Inv(r)
    ensures InHoles(r.st.holes, b) ==> b < 8 * r.st.ssize
  {
    if InHoles(r.st.holes, b) {
      var i :| 0 <= i < |r.st.holes| && InHole(r.st.holes[i], b);
      assert Backed(r.st.holes[i], r.placed, r.st.ssize);
    }
  }

  lemma FirstHoleFits(r: Run)
    requires Inv(r) && r.st.holes != []
    ensures FirstFit(r.st.holes, 1) == 0
  {
    assert Backed(r.st.holes[0], r.placed, r.st.ssize);
  }

  lemma LostBacked(r: Run, s: Slot, ssize: nat)
    requires Inv(r) && ssize >= r.st.ssize
    ensures AllBacked(r.lost, r.placed + [s], ssize)
  {
    BackedGrows(r.lost, r.placed, r.st.ssize, s, ssize);
  }

  /** The byte taken from the first hole lies in front of every hole that is left. */
  lemma HolesAfter(holes: seq<Hole>, offset: nat, r: Run)
    requires Inv(r) && r.st.holes != [] && offset == r.st.holes[0].offset
    requires forall b: nat :: InHoles(holes, b) ==> InHoles(r.st.holes, b) && !In(SlotOf(1, offset), b)
    requires forall i :: 0 <= i < |holes| ==> holes[i].size > 0
    ensures forall i :: 0 <= i < |holes| ==> 8 * offset + 1 < 8 * holes[i].offset
  {
    forall i | 0 <= i < |holes|
      ensures offset < holes[i].offset
    {
      var b := 8 * holes[i].offset;
      assert InHole(holes[i], b);
      HoleListed(holes, i, b);
      NotBefore(r, b);
    }
  }

  lemma NotBefore(r: Run, b: nat)
    requires Inv(r) && r.st.holes != [] && InHoles(r.st.holes, b)
    ensures b >= 8 * r.st.holes[0].offset
  {
    var i :| 0 <= i < |r.st.holes| && InHole(r.st.holes[i], b);
    if i > 0 {
      assert r.st.holes[0].offset + r.st.holes[0].size <= r.st.holes[i].offset;
    }
  }

  /** Without holes, a bool opens a byte at the end. */
  lemma PlaceBoolAtEnd(r: Run)
    requires Inv(r) && r.st.bit % 8 == 0 && FirstFit(r.st.holes, 1) == |r.st.holes|
    ensures Inv(Place(r, 0))
  {
    if r.st.holes != [] {
      FirstHoleFits(r);
    }
    hide InHoles, Occupied, RoundUp, AllBacked;
    var q, s := Place(r, 0), Slot(8 * r.st.ssize, 1);
    OpenNext(8 * r.st.ssize + 1, 0);
    LostBacked(r, s, r.st.ssize + 1);
    assert AllBacked(q.st.holes, q.placed, q.st.ssize) by { NoHoles(q.placed, q.st.ssize); }
    forall b: nat
      ensures InHoles(r.st.holes, b) || InHoles(r.lost, b) ==> b < 8 * r.st.ssize
    {
      HolesBelow(r, b);
      LostBelow(r, b);
    }
    StillDivided(r, q, s);
  }

  lemma NoHoles(placed: seq<Slot>, ssize: nat)
    ensures AllBacked([], placed, ssize)
  {
  }

  lemma LostBelow(r: Run, b: nat)
    requires Inv(r)
    ensures InHoles(r.lost, b) ==> b < 8 * r.st.ssize
  {
    if InHoles(r.lost, b) {
      var i :| 0 <= i < |r.lost| && InHole(r.lost[i], b);
      assert Backed(r.lost[i], r.placed, r.st.ssize);
    }
  }

  /** A scalar goes to the first hole that can hold it. */
  lemma PlaceInHole(r: Run, size: nat)
    requires Inv(r) && size in {1, 2, 4, 8} && FirstFit(r.st.holes, size) < |r.st.holes|
    ensures Inv(Place(r, size))
  {
    hide InHoles, Occupied, RoundUp, Take, AllBacked, Sorted;
    var i := FirstFit(r.st.holes, size);
    var (offset, st) := Take(r.st, i, size);
    var q, s := Place(r, size), SlotOf(size, offset);
    TakeKeeps(r, i, size, s);
    LostBacked(r, s, st.ssize);
    BackedSizes(st.holes, r.placed + [s], st.ssize);
    forall b: nat | In(s, b)
      ensures b < 8 * r.st.ssize
    {
      HolesBelow(r, b);
    }
    assert q.st == st && q.lost == r.lost && q.placed == r.placed + [s];
    forall b: nat
      ensures InOpenByte(q.st, b) <==> InOpenByte(r.st, b)
    {
      assert RoundUp(q.st.bit, 8) == RoundUp(r.st.bit, 8);
    }
    assert TakesFree(r, q, s);
    StillDivided(r, q, s);
    StillOpenFirst(r, st);
  }

  lemma StillOpenFirst(r: Run, st: State)
    requires Inv(r) && st.bit == r.st.bit
    requires forall b: nat :: InHoles(st.holes, b) ==> InHoles(r.st.holes, b)
    requires forall i :: 0 <= i < |st.holes| ==> st.holes[i].size > 0
    ensures OpenFirst(st)
  {
    if st.bit % 8 != 0 {
      forall i | 0 <= i < |st.holes|
        ensures st.bit < 8 * st.holes[i].offset
      {
        var b := 8 * st.holes[i].offset;
        assert InHole(st.holes[i], b);
        HoleListed(st.holes, i, b);
        var j :| 0 <= j < |r.st.holes| && InHole(r.st.holes[j], b);
      }
    }
  }

  lemma BackedSizes(holes: seq<Hole>, placed: seq<Slot>, ssize: nat)
    requires AllBacked(holes, placed, ssize)
    ensures forall i :: 0 <= i < |holes| ==> holes[i].size > 0 && holes[i].offset + holes[i].size < ssize
  {
    forall i | 0 <= i < |holes|
      ensures holes[i].size > 0 && holes[i].offset + holes[i].size < ssize
    {
      assert Backed(holes[i], placed, ssize);
    }
  }

  /** A scalar that fits no hole goes to the end. */
  lemma PlaceLast(r: Run, size: nat)
    requires Inv(r) && size in {1, 2, 4, 8} && FirstFit(r.st.holes, size) == |r.st.holes|
    ensures Inv(Place(r, size))
  {
    hide InHoles, Occupied, AllBacked, Sorted, RoundUp, InOpenByte;
    var offset := RoundUp(r.st.ssize, size);
    RoundUpSizes(r.st.ssize, size);
    Aligned(r.st.ssize, size);
    var q, s := Place(r, size), SlotOf(size, offset);
    BackedGrows(r.st.holes, r.placed, r.st.ssize, s, offset + size);
    LostBacked(r, s, offset + size);
    if offset > r.st.ssize {
      LeavesHole(r, size, q, s, offset);
    } else {
      assert q == Run(r.st.(ssize := offset + size), r.placed + [s], r.lost, r.bools, r.bytes + size);
      hide Place;
      LeavesNone(r, q, s);
    }
  }

  /** A scalar that follows the last one without padding. */
  lemma LeavesNone(r: Run, q: Run, s: Slot)
    requires Inv(r) && s.len in {8, 16, 32, 64} && s.start == 8 * r.st.ssize
    requires q.st == r.st.(ssize := r.st.ssize + s.len / 8) && q.placed == r.placed + [s] && q.lost == r.lost
    requires AllBacked(q.st.holes, q.placed, q.st.ssize) && AllBacked(q.lost, q.placed, q.st.ssize)
    ensures Inv(q)
  {
    hide InHoles, Occupied, AllBacked, Sorted, RoundUp, InOpenByte;
    forall b: nat
      ensures InOpenByte(q.st, b) <==> InOpenByte(r.st, b)
      ensures InHoles(r.st.holes, b) || InHoles(r.lost, b) ==> b < 8 * r.st.ssize
    {
      SameOpen(q.st, r.st, b);
      HolesBelow(r, b);
      LostBelow(r, b);
    }
    StillDivided(r, q, s);
  }

  lemma SameOpen(s: State, t: State, b: nat)
    requires s.bit == t.bit
    ensures InOpenByte(s, b) == InOpenByte(t, b)
  {
  }

  lemma LeavesHole(r: Run, size: nat, q: Run, s: Slot, offset: nat)
    requires Inv(r) && size in {1, 2, 4, 8} && FirstFit(r.st.holes, size) == |r.st.holes|
    requires offset == RoundUp(r.st.ssize, size) > r.st.ssize && s == SlotOf(size, offset) && q == Place(r, size)
    requires AllBacked(r.st.holes, r.placed + [s], offset + size) && AllBacked(r.lost, r.placed + [s], offset + size)
    ensures Inv(q)
  {
    hide InHoles, Occupied, AllBacked, Sorted, RoundUp, InOpenByte, Divided, Disjoint;
    var h := Hole(r.st.ssize, offset - r.st.ssize);
    var kept, gone := r.st.holes[..r.st.link], r.st.holes[r.st.link..];
    LostGrows(r, size);
    Aligned(r.st.ssize, size);
    assert q == Run(State(kept + [h], r.st.link + 1, r.st.bit, offset + size), r.placed + [s],
                    r.lost + gone, r.bools, r.bytes + size);
    hide Place;
    BackedSizes(r.st.holes, r.placed, r.st.ssize);
    OccupiedSnoc(r.placed, s, 8 * offset);
    assert Backed(h, q.placed, q.st.ssize);
    BackedParts(r.st.holes, r.st.link, r.lost, h, q.placed, q.st.ssize);
    SortedSnoc(r.st.holes, r.st.link, h);
    LeavesDivided(r, q, s, h);
    if r.st.bit % 8 != 0 {
      OpenBelow(r);
    }
  }

  lemma OpenBelow(r: Run)
    requires Inv(r) && r.st.bit % 8 != 0
    ensures r.st.bit < 8 * r.st.ssize
  {
    OpenNext(r.st.bit, 0);
    assert InOpenByte(r.st, r.st.bit);
  }

  lemma LeavesDivided(r: Run, q: Run, s: Slot, h: Hole)
    requires Inv(r) && s.len > 0
    requires h.offset == r.st.ssize && 8 * (h.offset + h.size) == s.start
    requires q.placed == r.placed + [s] && 8 * q.st.ssize == s.start + s.len && q.st.bit == r.st.bit
    requires q.st.holes == r.st.holes[..r.st.link] + [h] && q.lost == r.lost + r.st.holes[r.st.link..]
    ensures Divided(q) && Disjoint(q.placed)
  {
    hide InHoles, Occupied, AllBacked, Sorted, InOpenByte;
    var kept, gone := r.st.holes[..r.st.link], r.st.holes[r.st.link..];
    forall b: nat
      ensures InHoles(r.st.holes, b) || InHoles(r.lost, b) ==> b < 8 * r.st.ssize
      ensures InHoles(r.st.holes, b) <==> InHoles(kept, b) || InHoles(gone, b)
      ensures InHoles(kept, b) ==> !InHoles(gone, b)
      ensures InHoles(q.st.holes, b) <==> InHoles(kept, b) || InHole(h, b)
      ensures InHoles(q.lost, b) <==> InHoles(r.lost, b) || InHoles(gone, b)
      ensures InOpenByte(q.st, b) <==> InOpenByte(r.st, b)
    {
      SameOpen(q.st, r.st, b);
      HolesBelow(r, b);
      LostBelow(r, b);
      assert r.st.holes == kept + gone;
      InHolesConcat(kept, gone, b);
      PartsApart(r.st.holes, r.st.link, b);
      InHolesConcat(kept, [h], b);
      InHolesOne(h, b);
      InHolesConcat(r.lost, gone, b);
    }
    StillDivided(r, q, s);
  }

  lemma Aligned(x: nat, size: nat)
    requires size in {1, 2, 4, 8}
    ensures x % size == 0 <==> RoundUp(x, size) == x
  {
    RoundUpSizes(x, size);
  }

  lemma LostGrows(r: Run, size: nat)
    requires r.st.link <= |r.st.holes| && size in {1, 2, 4, 8}
    requires FirstFit(r.st.holes, size) == |r.st.holes| && RoundUp(r.st.ssize, size) > r.st.ssize
    ensures Place(r, size).lost == r.lost + r.st.holes[r.st.link..]
  {
    Aligned(r.st.ssize, size);
    if r.st.link == |r.st.holes| {
      assert r.lost + [] == r.lost;
    }
  }

  lemma BackedParts(holes: seq<Hole>, link: nat, lost: seq<Hole>, h: Hole, placed: seq<Slot>, ssize: nat)
    requires link <= |holes| && AllBacked(holes, placed, ssize) && AllBacked(lost, placed, ssize)
    requires Backed(h, placed, ssize)
    ensures AllBacked(holes[..link] + [h], placed, ssize) && AllBacked(lost + holes[link..], placed, ssize)
  {
    hide Backed;
  }

  lemma SortedSnoc(holes: seq<Hole>, link: nat, h: Hole)
    requires link <= |holes| && Sorted(holes)
    requires forall i :: 0 <= i < |holes| ==> holes[i].offset + holes[i].size < h.offset
    ensures Sorted(holes[..link] + [h])
  {
  }

  lemma PartsApart(holes: seq<Hole>, link: nat, b: nat)
    requires link <= |holes| && Sorted(holes)
    ensures !(InHoles(holes[..link], b) && InHoles(holes[link..], b))
  {
    if InHoles(holes[..link], b) {
      var i :| 0 <= i < link && InHole(holes[..link][i], b);
      forall j | 0 <= j < |holes[link..]|
        ensures !InHole(holes[link..][j], b)
      {
        assert holes[i].offset + holes[i].size <= holes[link + j].offset;
      }
    }
  }

  /** Every placement keeps the invariant. */
  lemma PlaceInv(r: Run, size: nat)
    requires Inv(r) && ScalarSize(size)
    ensures Inv(Place(r, size))
  {
    hide Inv, Place;
    assert r.st.link <= |r.st.holes| by { LinkInside(r); }
    if size == 0 {
      if r.st.bit % 8 != 0 {
        PlaceInOpenByte(r);
      } else if FirstFit(r.st.holes, 1) < |r.st.holes| {
        PlaceBoolInHole(r);
      } else {
        PlaceBoolAtEnd(r);
      }
    } else if FirstFit(r.st.holes, size) < |r.st.holes| {
      PlaceInHole(r, size);
    } else {
      PlaceLast(r, size);
    }
  }

  lemma LinkInside(r: Run)
    requires Inv(r)
    ensures r.st.link <= |r.st.holes|
  {
  }

  // ---------------------------------------------------------------- the rule of the specification

  ghost predicate FreeSlot(placed: seq<Slot>, s: Slot) {
    forall b: nat :: In(s, b) ==> !Occupied(placed, b)
  }

  /** The offset rule: the smallest aligned offset whose bits are not taken by earlier scalars. */
  ghost predicate Minimal(placed: seq<Slot>, s: Slot)
    requires s.len > 0
  {
    && s.start % s.len == 0
    && FreeSlot(placed, s)
    && (forall y: nat :: y < s.start && y % s.len == 0 ==> !FreeSlot(placed, Slot(y, s.len)))
  }

  /** A hole with room for an aligned slot that starts below the limit. */
  predicate HasRoom(h: Hole, len: nat, limit: nat)
    requires len > 0
  {
    && RoundUp(8 * h.offset, len) + len <= 8 * (h.offset + h.size)
    && RoundUp(8 * h.offset, len) < limit
  }

  predicate RoomInLost(lost: seq<Hole>, len: nat, limit: nat)
    requires len > 0
  {
    exists i :: 0 <= i < |lost| && HasRoom(lost[i], len, limit)
  }

  function Chosen(r: Run, size: nat): (s: Slot)
    requires r.st.link <= |r.st.holes|
    ensures s.len == if size == 0 then 1 else 8 * size
  {
    SlotOf(size, CalculateOffset(r.st, size).0)
  }

  lemma RoundUpUnique(x: nat, n: nat, r: nat, k: nat)
    requires n > 0 && x <= r < x + n && r == k * n
    ensures RoundUp(x, n) == r && r % n == 0
  {
    ModUnique(x + n - 1, n, k, x + n - 1 - r);
    ModUnique(r, n, k, 0);
  }

  lemma BitUnits(x: nat, size: nat)
    requires size in {1, 2, 4, 8}
    ensures RoundUp(8 * x, 8 * size) == 8 * RoundUp(x, size)
    ensures x % size == 0 ==> 8 * x % (8 * size) == 0
  {
    hide RoundUp;
    RoundUpProps(x, size);
    var r := RoundUp(x, size);
    EightTimes(r, size);
    RoundUpUnique(8 * x, 8 * size, 8 * r, r / size);
    if x % size == 0 {
      EightTimes(x, size);
      ModUnique(8 * x, 8 * size, x / size, 0);
    }
  }

  lemma EightTimes(r: nat, n: nat)
    requires n > 0 && r % n == 0
    ensures 8 * r == (r / n) * (8 * n)
  {
    assert r == (r / n) * n;
    assert 8 * ((r / n) * n) == (r / n) * (8 * n);
  }

  lemma BytesOfBits(y: nat, size: nat)
    requires size in {1, 2, 4, 8} && y % (8 * size) == 0
    ensures y == 8 * (y / 8) && (y / 8) % size == 0
  {
    var k := y / (8 * size);
    assert y == k * (8 * size);
    assert k * (8 * size) == 8 * (k * size);
    ModUnique(k * size, size, k, 0);
  }

  /** The chosen slot is aligned and was free. */
  lemma ChosenIsFree(r: Run, size: nat)
    requires Inv(r) && ScalarSize(size)
    ensures Chosen(r, size).start % Chosen(r, size).len == 0
    ensures FreeSlot(r.placed, Chosen(r, size))
  {
    var s := Chosen(r, size);
    PlaceInv(r, size);
    var q := Place(r, size);
    assert q.placed == r.placed + [s] && Disjoint(q.placed);
    forall b: nat | In(s, b)
      ensures !Occupied(r.placed, b)
    {
      forall i | 0 <= i < |r.placed|
        ensures !In(r.placed[i], b)
      {
        assert q.placed[i] == r.placed[i] && q.placed[|r.placed|] == s;
      }
    }
    if size != 0 {
      ChosenAligned(r.st, size);
    }
  }

  lemma ChosenAligned(st: State, size: nat)
    requires size in {1, 2, 4, 8} && st.link <= |st.holes|
    ensures CalculateOffset(st, size).0 % size == 0
    ensures SlotOf(size, CalculateOffset(st, size).0).start % (8 * size) == 0
  {
    RoundUpSizes(st.ssize, size);
    var i := FirstFit(st.holes, size);
    if i < |st.holes| {
      RoundUpSizes(st.holes[i].offset, size);
    }
    BitUnits(CalculateOffset(st, size).0, size);
  }

  /** A free slot that starts in a hole ends in it: the bit behind the hole is in use. */
  lemma RunInHole(h: Hole, r: Run, s: Slot)
    requires Backed(h, r.placed, r.st.ssize) && InHole(h, s.start) && s.len > 0 && FreeSlot(r.placed, s)
    ensures s.start + s.len <= 8 * (h.offset + h.size)
  {
    hide Occupied;
    var e := 8 * (h.offset + h.size);
    assert Occupied(r.placed, e);
    assert !In(s, e);
  }

  /** No free aligned slot that starts in a listed hole lies below the chosen one. */
  lemma NotInHoles(r: Run, size: nat, y: nat)
    requires Inv(r) && ScalarSize(size) && InHoles(r.st.holes, y)
    requires y % Chosen(r, size).len == 0 && FreeSlot(r.placed, Slot(y, Chosen(r, size).len))
    ensures Chosen(r, size).start <= y
  {
    hide Occupied, Divided, Disjoint;
    var j :| 0 <= j < |r.st.holes| && InHole(r.st.holes[j], y);
    var h := r.st.holes[j];
    assert Backed(h, r.placed, r.st.ssize);
    if size == 0 {
      if r.st.bit % 8 == 0 {
        FirstHoleFits(r);
        RoundUpSizes(r.st.holes[0].offset, 1);
        NotBefore(r, y);
      }
    } else {
      BytesOfBits(y, size);
      RunInHole(h, r, Slot(y, 8 * size));
      RoundUpSizes(h.offset, size);
      FirstFitBelow(r, size, j, y / 8);
    }
  }

  lemma FirstFitBelow(r: Run, size: nat, j: nat, y: nat)
    requires Inv(r) && size in {1, 2, 4, 8} && j < |r.st.holes|
    requires r.st.holes[j].offset <= y && y % size == 0
    requires y + size <= r.st.holes[j].offset + r.st.holes[j].size
    ensures CalculateOffset(r.st, size).0 <= y
  {
    hide Occupied, Divided, Disjoint, AllBacked;
    RoundUpSizes(r.st.holes[j].offset, size);
    var i := FirstFit(r.st.holes, size);
    assert Fits(r.st.holes[j], size) && i <= j;
    FitsInside(r.st.holes[i], size);
    if i < j {
      assert r.st.holes[i].offset + r.st.holes[i].size <= r.st.holes[j].offset;
    }
  }

  /** No free aligned slot starts in the open byte below the chosen one. */
  lemma NotInOpenByte(r: Run, size: nat, y: nat)
    requires Inv(r) && ScalarSize(size) && InOpenByte(r.st, y)
    requires y % Chosen(r, size).len == 0
    ensures Chosen(r, size).start <= y
  {
    hide Inv, CalculateOffset;
    OpenNext(r.st.bit, 0);
    if size != 0 {
      BytesOfBits(y, size);
      NoMultiple(r.st.bit, y);
      assert false;
    }
    LinkInside(r);
    BoolInOpenByte(r.st);
  }

  lemma NoMultiple(bit: nat, y: nat)
    requires bit % 8 != 0 && y % 8 == 0 && y < 8 * (bit / 8 + 1)
    ensures y < bit
  {
  }

  lemma BoolInOpenByte(st: State)
    requires st.bit % 8 != 0 && st.link <= |st.holes|
    ensures CalculateOffset(st, 0).0 == st.bit
  {
  }

  /** No aligned slot beyond the current end lies below the chosen one. */
  lemma NotBeyond(r: Run, size: nat, y: nat)
    requires Inv(r) && ScalarSize(size) && y >= 8 * r.st.ssize
    requires y % Chosen(r, size).len == 0
    ensures Chosen(r, size).start <= y
  {
    hide Occupied, Divided, Disjoint, Sorted;
    if size == 0 {
      if r.st.bit % 8 != 0 {
        OpenBelowEnd(r);
      } else if r.st.holes != [] {
        FirstHoleFits(r);
        BackedSizes(r.st.holes, r.placed, r.st.ssize);
        RoundUpSizes(r.st.holes[0].offset, 1);
      }
    } else {
      BytesOfBits(y, size);
      RoundUpSizes(r.st.ssize, size);
      var i := FirstFit(r.st.holes, size);
      if i < |r.st.holes| {
        FitsInside(r.st.holes[i], size);
        BackedSizes(r.st.holes, r.placed, r.st.ssize);
      }
    }
  }

  lemma OpenBelowEnd(r: Run)
    requires Inv(r) && r.st.bit % 8 != 0
    ensures r.st.bit < 8 * r.st.ssize
  {
    OpenBelow(r);
  }

  lemma LostRoom(r: Run, len: nat, y: nat, limit: nat)
    requires Inv(r) && len > 0 && InHoles(r.lost, y) && y % len == 0 && y < limit
    requires FreeSlot(r.placed, Slot(y, len))
    ensures RoomInLost(r.lost, len, limit)
  {
    hide Occupied, Divided, Disjoint;
    var i :| 0 <= i < |r.lost| && InHole(r.lost[i], y);
    assert Backed(r.lost[i], r.placed, r.st.ssize);
    RunInHole(r.lost[i], r, Slot(y, len));
    RoundUpLeast(8 * r.lost[i].offset, len, y);
    assert HasRoom(r.lost[i], len, limit);
  }

  /** The offset rule is met exactly when no hole that was cut off had room further down; it leaves no
      other choice. */
  lemma MinimalIff(r: Run, size: nat)
    requires Inv(r) && ScalarSize(size)
    ensures var s := Chosen(r, size);
            && (Minimal(r.placed, s) <==> !RoomInLost(r.lost, s.len, s.start))
            && (Minimal(r.placed, s) ==> forall t: Slot :: t.len == s.len && Minimal(r.placed, t) ==> t == s)
  {
    hide Occupied, CalculateOffset, Sorted, AllBacked, OpenFirst, Disjoint, InHoles, InOpenByte, HasRoom;
    var s := Chosen(r, size);
    ChosenIsFree(r, size);
    forall y: nat | y < s.start && y % s.len == 0 && FreeSlot(r.placed, Slot(y, s.len))
      ensures RoomInLost(r.lost, s.len, s.start)
    {
      assert In(Slot(y, s.len), y);
      if y >= 8 * r.st.ssize {
        NotBeyond(r, size, y);
      } else if InHoles(r.st.holes, y) {
        NotInHoles(r, size, y);
      } else if InOpenByte(r.st, y) {
        NotInOpenByte(r, size, y);
      } else {
        LostRoom(r, s.len, y, s.start);
      }
    }
    if RoomInLost(r.lost, s.len, s.start) {
      var i :| 0 <= i < |r.lost| && HasRoom(r.lost[i], s.len, s.start);
      LostSlotFree(r, i, s.len, s.start);
    }
    forall t: Slot | t.len == s.len && Minimal(r.placed, t) && Minimal(r.placed, s)
      ensures t == s
    {
      assert s == Slot(s.start, t.len) && t == Slot(t.start, s.len);
    }
  }

  lemma LostSlotFree(r: Run, i: nat, len: nat, limit: nat)
    requires Inv(r) && len > 0 && i < |r.lost| && HasRoom(r.lost[i], len, limit)
    ensures var y := RoundUp(8 * r.lost[i].offset, len);
            y < limit && y % len == 0 && FreeSlot(r.placed, Slot(y, len))
  {
    var h := r.lost[i];
    RoundUpProps(8 * h.offset, len);
    var y := RoundUp(8 * h.offset, len);
    hide RoundUp, Occupied;
    forall b: nat | In(Slot(y, len), b)
      ensures !Occupied(r.placed, b)
    {
      assert InHole(h, b);
      HoleListed(r.lost, i, b);
      LostBelow(r, b);
    }
  }

  // ---------------------------------------------------------------- whole field lists

  const START := Run(EMPTY, [], [], 0, 0)

  lemma StartInv()
    ensures Inv(START)
  {
  }

  /** Lays out a list of scalar sizes. */
  function Layout(r: Run, sizes: seq<nat>): Run
    requires Inv(r) && forall i :: 0 <= i < |sizes| ==> ScalarSize(sizes[i])
    decreases |sizes|
  {
    if sizes == [] then r
    else
      PlaceInv(r, sizes[0]);
      Layout(Place(r, sizes[0]), sizes[1..])
  }

  /** No placement of the list cuts listed holes off. */
  predicate NoDrops(r: Run, sizes: seq<nat>)
    requires Inv(r) && forall i :: 0 <= i < |sizes| ==> ScalarSize(sizes[i])
    decreases |sizes|
  {
    sizes == []
    || (!Drops(r.st, sizes[0])
        && (PlaceInv(r, sizes[0]);
            NoDrops(Place(r, sizes[0]), sizes[1..])))
  }

  lemma {:induction false} LayoutInv(r: Run, sizes: seq<nat>)
    requires Inv(r) && forall i :: 0 <= i < |sizes| ==> ScalarSize(sizes[i])
    ensures Inv(Layout(r, sizes))
    ensures |Layout(r, sizes).placed| == |r.placed| + |sizes|
    ensures r.placed <= Layout(r, sizes).placed && r.lost <= Layout(r, sizes).lost
    ensures Layout(r, sizes).lost == r.lost <==> NoDrops(r, sizes)
    decreases |sizes|
  {
    hide Inv;
    if sizes != [] {
      LinkInside(r);
      PlaceInv(r, sizes[0]);
      LayoutInv(Place(r, sizes[0]), sizes[1..]);
      LostOne(r, sizes[0]);
    }
  }

  lemma LostOne(r: Run, size: nat)
    requires Inv(r)
    ensures r.lost <= Place(r, size).lost && r.placed <= Place(r, size).placed
    ensures |Place(r, size).lost| > |r.lost| <==> Drops(r.st, size)
    ensures Place(r, size).lost == r.lost <==> !Drops(r.st, size)
  {
  }

  /** The exact partition: every bit of the scalar part is used by a scalar, or by the open bool byte's
      rest, or lies in a listed hole. */
  ghost predicate FullyListed(r: Run) {
    forall b: nat :: b < 8 * r.st.ssize ==>
      (Occupied(r.placed, b) <==> !(InHoles(r.st.holes, b) || InOpenByte(r.st, b)))
  }

  /** The partition is exact precisely when no placement cut holes off. */
  lemma PartitionIff(sizes: seq<nat>)
    requires forall i :: 0 <= i < |sizes| ==> ScalarSize(sizes[i])
    ensures Inv(START)
    ensures FullyListed(Layout(START, sizes)) <==> NoDrops(START, sizes)
  {
    StartInv();
    LayoutInv(START, sizes);
    hide Layout, NoDrops, Occupied, InHoles, InOpenByte, Sorted, Disjoint, OpenFirst;
    var r := Layout(START, sizes);
    if r.lost != [] {
      LostBit(r);
    } else {
      NothingLost(r);
    }
  }

  lemma NothingLost(r: Run)
    requires Inv(r) && r.lost == []
    ensures FullyListed(r)
  {
  }

  lemma LostBit(r: Run)
    requires Inv(r) && r.lost != []
    ensures !FullyListed(r)
  {
    hide Occupied, InOpenByte;
    var h := r.lost[0];
    assert Backed(h, r.placed, r.st.ssize);
    var b := 8 * h.offset;
    assert InHole(h, b);
    HoleListed(r.lost, 0, b);
  }

  /** The specification's layout: every scalar at the smallest offset left by its predecessors. */
  ghost predicate FollowsRule(placed: seq<Slot>) {
    forall i :: 0 <= i < |placed| ==> placed[i].len > 0 && Minimal(placed[..i], placed[i])
  }

  /** At no step does a hole that was cut off have room below the offset that is chosen. */
  predicate NoRoomMissed(r: Run, sizes: seq<nat>)
    requires Inv(r) && forall i :: 0 <= i < |sizes| ==> ScalarSize(sizes[i])
    decreases |sizes|
  {
    sizes == []
    || (!RoomInLost(r.lost, Chosen(r, sizes[0]).len, Chosen(r, sizes[0]).start)
        && (PlaceInv(r, sizes[0]);
            NoRoomMissed(Place(r, sizes[0]), sizes[1..])))
  }

  /** The layout of a whole list is the one the specification prescribes if and only if no step misses
      room in a hole that was cut off. */
  lemma {:induction false} LayoutRuleIff(r: Run, sizes: seq<nat>)
    requires Inv(r) && forall i :: 0 <= i < |sizes| ==> ScalarSize(sizes[i])
    requires FollowsRule(r.placed)
    ensures FollowsRule(Layout(r, sizes).placed) <==> NoRoomMissed(r, sizes)
    decreases |sizes|
  {
    hide Inv, Minimal, Drops, RoomInLost, FollowsRule;
    if sizes != [] {
      LinkInside(r);
      PlaceInv(r, sizes[0]);
      var q := Place(r, sizes[0]);
      MinimalIff(r, sizes[0]);
      NextFollows(r.placed, Chosen(r, sizes[0]));
      if FollowsRule(q.placed) {
        LayoutRuleIff(q, sizes[1..]);
      } else {
        LayoutInv(q, sizes[1..]);
        if FollowsRule(Layout(q, sizes[1..]).placed) {
          PrefixFollows(q.placed, Layout(q, sizes[1..]).placed);
        }
      }
    }
  }

  lemma NextFollows(placed: seq<Slot>, s: Slot)
    requires FollowsRule(placed) && s.len > 0
    ensures FollowsRule(placed + [s]) <==> Minimal(placed, s)
  {
    hide Minimal;
    var q := placed + [s];
    assert q[..|placed|] == placed && q[|placed|] == s;
    if Minimal(placed, s) {
      forall i | 0 <= i < |q|
        ensures q[i].len > 0 && Minimal(q[..i], q[i])
      {
        assert q[..i] == if i < |placed| then placed[..i] else placed;
      }
    }
  }

  lemma PrefixFollows(placed: seq<Slot>, all: seq<Slot>)
    requires placed <= all && FollowsRule(all)
    ensures FollowsRule(placed)
  {
    hide Minimal;
    forall i | 0 <= i < |placed|
      ensures placed[i].len > 0 && Minimal(placed[..i], placed[i])
    {
      assert placed[..i] == all[..i] && placed[i] == all[i];
    }
  }

  /** A list that never cuts holes off misses no room. */
  lemma {:induction false} NoDropsNoneMissed(r: Run, sizes: seq<nat>)
    requires Inv(r) && forall i :: 0 <= i < |sizes| ==> ScalarSize(sizes[i])
    requires r.lost == [] && NoDrops(r, sizes)
    ensures NoRoomMissed(r, sizes)
    decreases |sizes|
  {
    hide Inv, Drops, Chosen;
    if sizes != [] {
      LinkInside(r);
      PlaceInv(r, sizes[0]);
      LostOne(r, sizes[0]);
      NoDropsNoneMissed(Place(r, sizes[0]), sizes[1..]);
    }
  }

  /** The three placements that matter in the example below: splitting a hole, appending a hole at the
      stale link, and falling back to the new hole. */
  lemma SplitStep(r: Run)
    requires r.st == State([Hole(1, 7)], 1, 0, 16)
    ensures Place(r, 2).st == State([Hole(1, 1), Hole(4, 4)], 1, 0, 16)
    ensures Place(r, 2).placed == r.placed + [Slot(16, 16)] && !Drops(r.st, 2)
  {
    assert r.st.holes[1..] == [];
  }

  lemma ShrinkStep(r: Run)
    requires r.st == State([Hole(1, 1), Hole(4, 4)], 1, 0, 16)
    ensures Place(r, 2).st == State([Hole(1, 1), Hole(6, 2)], 1, 0, 16)
    ensures Place(r, 2).placed == r.placed + [Slot(32, 16)]
  {
    var f := r.st.holes;
    assert FirstFit(f[1..], 2) == 0 && FirstFit(f, 2) == 1;
  }

  lemma EndStep(r: Run)
    requires r.st == State([Hole(1, 1), Hole(6, 2)], 1, 0, 16)
    ensures Place(r, 4).st == State([Hole(1, 1), Hole(6, 2)], 1, 0, 20)
    ensures Place(r, 4).placed == r.placed + [Slot(128, 32)]
  {
    var f := r.st.holes;
    assert f[1..][1..] == [] && FirstFit(f[1..], 4) == 1 && FirstFit(f, 4) == 2;
  }

  lemma CutStep(r: Run)
    requires r.st == State([Hole(1, 1), Hole(6, 2)], 1, 0, 20)
    ensures Place(r, 8).st == State([Hole(1, 1), Hole(20, 4)], 2, 0, 32)
    ensures Place(r, 8).placed == r.placed + [Slot(192, 64)] && Drops(r.st, 8)
  {
    var f := r.st.holes;
    assert f[1..][1..] == [] && FirstFit(f[1..], 8) == 1 && FirstFit(f, 8) == 2;
  }

  lemma LateStep(r: Run)
    requires r.st == State([Hole(1, 1), Hole(20, 4)], 2, 0, 32)
    ensures Place(r, 2).placed == r.placed + [Slot(160, 16)]
  {
    var f := r.st.holes;
    assert FirstFit(f[1..], 2) == 0 && FirstFit(f, 2) == 1;
  }

  lemma FirstStep(r: Run)
    requires r.st == State([], 0, 0, 0)
    ensures Place(r, 1).st == State([], 0, 0, 1) && Place(r, 1).placed == r.placed + [Slot(0, 8)]
  {
  }

  lemma SecondStep(r: Run)
    requires r.st == State([], 0, 0, 1)
    ensures Place(r, 8).st == State([Hole(1, 7)], 1, 0, 16) && Place(r, 8).placed == r.placed + [Slot(64, 64)]
  {
  }

  /** The last five of seven placements, from the state the first two leave. */
  lemma FivePlacements(r: Run)
    requires Inv(r) && r.st == State([Hole(1, 7)], 1, 0, 16)
    ensures Layout(r, [2, 2, 4, 8, 2]).placed
         == r.placed + [Slot(16, 16), Slot(32, 16), Slot(128, 32), Slot(192, 64), Slot(160, 16)]
    ensures !NoDrops(r, [2, 2, 4, 8, 2])
  {
    hide Inv, Place, Drops, Layout, NoDrops;
    SplitStep(r);
    Unroll(r, 2, [2, 4, 8, 2]);
    var r1 := Place(r, 2);
    ShrinkStep(r1);
    Unroll(r1, 2, [4, 8, 2]);
    var r2 := Place(r1, 2);
    EndStep(r2);
    Unroll(r2, 4, [8, 2]);
    var r3 := Place(r2, 4);
    CutStep(r3);
    Unroll(r3, 8, [2]);
    var r4 := Place(r3, 8);
    LateStep(r4);
    Unroll(r4, 2, []);
    UnrollNil(Place(r4, 2));
    assert [2, 2, 4, 8, 2] == [2] + [2, 4, 8, 2] && [2, 4, 8, 2] == [2] + [4, 8, 2];
    assert [4, 8, 2] == [4] + [8, 2] && [8, 2] == [8] + [2] && [2] == [2] + [];
  }

  /** Seven scalars whose layout breaks the rule, because splitting a hole left the link in front of the
      piece: the last one is placed at 20 although the aligned bytes 6 and 7 are free. */
  lemma SplitLosesRest()
    ensures Inv(START)
    ensures !NoDrops(START, [1, 8, 2, 2, 4, 8, 2])
    ensures var placed := Layout(START, [1, 8, 2, 2, 4, 8, 2]).placed;
            |placed| == 7 && placed[6] == Slot(160, 16) && FreeSlot(placed[..6], Slot(48, 16))
  {
    StartInv();
    hide Inv, Place, Drops, Layout, NoDrops;
    FirstStep(START);
    Unroll(START, 1, [8, 2, 2, 4, 8, 2]);
    var r1 := Place(START, 1);
    SecondStep(r1);
    Unroll(r1, 8, [2, 2, 4, 8, 2]);
    FivePlacements(Place(r1, 8));
    assert [1, 8, 2, 2, 4, 8, 2] == [1] + [8, 2, 2, 4, 8, 2];
    assert [8, 2, 2, 4, 8, 2] == [8] + [2, 2, 4, 8, 2];
  }

  lemma Unroll(r: Run, size: nat, rest: seq<nat>)
    requires Inv(r) && ScalarSize(size) && forall i :: 0 <= i < |rest| ==> ScalarSize(rest[i])
    ensures Inv(Place(r, size))
    ensures forall i :: 0 <= i < |[size] + rest| ==> ScalarSize(([size] + rest)[i])
    ensures Layout(r, [size] + rest) == Layout(Place(r, size), rest)
    ensures NoDrops(r, [size] + rest) <==> !Drops(r.st, size) && NoDrops(Place(r, size), rest)
  {
    PlaceInv(r, size);
    assert ([size] + rest)[1..] == rest;
  }

  lemma UnrollNil(r: Run)
    requires Inv(r)
    ensures Layout(r, []) == r
  {
  }

  // ---------------------------------------------------------------- conservation of bytes

  function TotalSize(holes: seq<Hole>): nat {
    if holes == [] then 0 else holes[0].size + TotalSize(holes[1..])
  }

  lemma {:induction false} TotalConcat(x: seq<Hole>, y: seq<Hole>)
    ensures TotalSize(x + y) == TotalSize(x) + TotalSize(y)
  {
    if x == [] {
      assert x + y == y;
    } else {
      assert (x + y)[1..] == x[1..] + y;
      TotalConcat(x[1..], y);
    }
  }

  /** Every byte of the scalar part is accounted for, and k bools take up ceil(k/8) of them. */
  ghost predicate Conserved(r: Run) {
    && r.st.ssize == r.bytes + (r.bools + 7) / 8 + TotalSize(r.st.holes) + TotalSize(r.lost)
    && r.st.bit % 8 == r.bools % 8
  }

  lemma TakeTotal(st: State, i: nat, size: nat)
    requires size in {1, 2, 4, 8} && i < |st.holes| && Fits(st.holes[i], size) && st.link <= |st.holes|
    ensures TotalSize(Take(st, i, size).1.holes) + size == TotalSize(st.holes)
  {
    TakeSplits(st, i, size);
    var p := st.holes[i];
    FitsInside(p, size);
    PiecesTotal(p, size);
    hide Take, Pieces, Fits, RoundUp;
    var pre, post := st.holes[..i], st.holes[i + 1..];
    assert st.holes == pre + [p] + post;
    TotalConcat(pre + [p], post);
    TotalConcat(pre, [p]);
    TotalConcat(pre + Pieces(p, size), post);
    TotalConcat(pre, Pieces(p, size));
  }

  lemma PiecesTotal(p: Hole, size: nat)
    requires size in {1, 2, 4, 8} && Fits(p, size)
    ensures TotalSize(Pieces(p, size)) + size == p.size == TotalSize([p])
  {
    FitsInside(p, size);
    hide RoundUp;
    var offset := RoundUp(p.offset, size);
    var remain := p.size - (offset - p.offset) - size;
    var x := if offset > p.offset then [Hole(p.offset, offset - p.offset)] else [];
    var y := if remain > 0 then [Hole(offset + size, remain)] else [];
    TotalConcat(x, y);
    assert TotalSize([p]) == p.size + TotalSize([]);
  }

  lemma PlaceConserves(r: Run, size: nat)
    requires Inv(r) && ScalarSize(size) && Conserved(r)
    ensures Conserved(Place(r, size))
  {
    LinkInside(r);
    hide Inv, Conserved, Place;
    if size == 0 {
      if r.st.bit % 8 == 0 && FirstFit(r.st.holes, 1) < |r.st.holes| {
        BoolTakeConserves(r);
      } else {
        BoolConserves(r);
      }
    } else if FirstFit(r.st.holes, size) < |r.st.holes| {
      TakeConserves(r, size);
    } else {
      EndConserves(r, size);
    }
  }

  lemma BoolConserves(r: Run)
    requires r.st.link <= |r.st.holes| && Conserved(r)
    requires r.st.bit % 8 != 0 || FirstFit(r.st.holes, 1) == |r.st.holes|
    ensures Conserved(Place(r, 0))
  {
    BoolPlaced(r);
    hide TotalSize, Place, FirstFit;
    OneMoreBool(r.bools, r.st.bit, r.st.ssize);
  }

  lemma BoolPlaced(r: Run)
    requires r.st.link <= |r.st.holes|
    requires r.st.bit % 8 != 0 || FirstFit(r.st.holes, 1) == |r.st.holes|
    ensures var q := Place(r, 0);
            && q.st.holes == r.st.holes && q.lost == r.lost && q.bytes == r.bytes && q.bools == r.bools + 1
            && (r.st.bit % 8 != 0 ==> q.st.bit == r.st.bit + 1 && q.st.ssize == r.st.ssize)
            && (r.st.bit % 8 == 0 ==> q.st.bit == 8 * r.st.ssize + 1 && q.st.ssize == r.st.ssize + 1)
  {
    hide Take, Fits, PlaceAtEnd, Behind;
  }

  /** One more bool needs one more byte exactly if the ones before fill theirs. */
  lemma OneMoreBool(n: nat, bit: nat, ssize: nat)
    requires bit % 8 == n % 8
    ensures bit % 8 != 0 ==> (n + 1 + 7) / 8 == (n + 7) / 8 && (bit + 1) % 8 == (n + 1) % 8
    ensures bit % 8 == 0 ==> (n + 1 + 7) / 8 == (n + 7) / 8 + 1 && (8 * ssize + 1) % 8 == (n + 1) % 8
  {
  }

  lemma BoolTakeConserves(r: Run)
    requires r.st.link <= |r.st.holes| && Conserved(r)
    requires r.st.bit % 8 == 0 && FirstFit(r.st.holes, 1) < |r.st.holes|
    ensures Conserved(Place(r, 0))
  {
    hide TotalSize, Take, Fits;
    TakeTotal(r.st, FirstFit(r.st.holes, 1), 1);
    TakeSplits(r.st, FirstFit(r.st.holes, 1), 1);
  }

  lemma TakeConserves(r: Run, size: nat)
    requires r.st.link <= |r.st.holes| && Conserved(r)
    requires size in {1, 2, 4, 8} && FirstFit(r.st.holes, size) < |r.st.holes|
    ensures Conserved(Place(r, size))
  {
    hide TotalSize, Take, Fits;
    TakeTotal(r.st, FirstFit(r.st.holes, size), size);
    TakeSplits(r.st, FirstFit(r.st.holes, size), size);
  }

  lemma EndConserves(r: Run, size: nat)
    requires r.st.link <= |r.st.holes| && size in {1, 2, 4, 8} && Conserved(r)
    requires FirstFit(r.st.holes, size) == |r.st.holes|
    ensures Conserved(Place(r, size))
  {
    hide TotalSize, RoundUp;
    RoundUpSizes(r.st.ssize, size);
    Aligned(r.st.ssize, size);
    var kept, gone := r.st.holes[..r.st.link], r.st.holes[r.st.link..];
    var h := Hole(r.st.ssize, RoundUp(r.st.ssize, size) - r.st.ssize);
    if h.size > 0 {
      LostGrows(r, size);
      assert r.st.holes == kept + gone;
      TotalConcat(kept, gone);
      TotalConcat(kept, [h]);
      TotalConcat(r.lost, gone);
      TotalOne(h);
    }
  }

  lemma TotalOne(h: Hole)
    ensures TotalSize([h]) == h.size
  {
    assert TotalSize([h]) == h.size + TotalSize([]);
  }

  /** The scalar part of any field list is its scalars, one byte per eight bools begun, and its holes. */
  lemma {:induction false} LayoutConserves(r: Run, sizes: seq<nat>)
    requires Inv(r) && Conserved(r) && forall i :: 0 <= i < |sizes| ==> ScalarSize(sizes[i])
    ensures Conserved(Layout(r, sizes))
    decreases |sizes|
  {
    hide Inv, Conserved;
    if sizes != [] {
      LinkInside(r);
      PlaceInv(r, sizes[0]);
      PlaceConserves(r, sizes[0]);
      LayoutConserves(Place(r, sizes[0]), sizes[1..]);
    }
  }
}
