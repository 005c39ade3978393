/** Where cut-off holes come from (nbufc/t2b.c:168-226): which holes lie in front of the cell that the next
    hole is stored in, which behind it, and which get lost, told by the bits of the scalar part alone. */
module Losses {
  import opened Wire
  import opened L = Layout

  /** Bit b lies in a hole in front of the cell. */
  ghost predicate Ahead(st: State, b: nat)
    requires st.link <= |st.holes|
  {
    InHoles(st.holes[..st.link], b)
  }

  /** Bit b lies in a hole behind the cell: the next hole that is stored there cuts it off. */
  ghost predicate Exposed(st: State, b: nat)
    requires st.link <= |st.holes|
  {
    InHoles(st.holes[st.link..], b)
  }

  /** What a scalar takes out of the holes: a bool takes a whole byte. */
  function Taken(size: nat, s: Slot): Slot {
    if size == 0 then Slot(8 * (s.start / 8), 8) else s
  }

  /** Bit b is what remains of the hole in front of the cell, behind a slot that begins inside it. */
  predicate Remainder(st: State, s: Slot, b: nat)
    requires st.link <= |st.holes|
  {
    && st.link > 0
    && 8 * st.holes[st.link - 1].offset < s.start <= s.start + s.len <= b
    && InHole(st.holes[st.link - 1], s.start) && InHole(st.holes[st.link - 1], b)
  }

  /** Slot t extends the scalar part. */
  predicate AtEnd(st: State, t: Slot) {
    t.start >= 8 * st.ssize
  }

  /** Slot t leaves a hole between the scalar part and itself. */
  predicate Gap(st: State, t: Slot) {
    t.start > 8 * st.ssize
  }

  // ---------------------------------------------------------------- taking bytes out of a hole

  lemma Parts(x: seq<Hole>, y: seq<Hole>, n: nat)
    requires n <= |x|
    ensures (x + y)[..n] == x[..n]
    ensures n == |x| ==> (x + y)[n..] == y
  {
  }

  /** The pieces of the hole in front of the cell: the second one comes to lie behind it. */
  function Moving(st: State, i: nat, size: nat): nat
    requires size > 0 && i < |st.holes| && Fits(st.holes[i], size)
  {
    if st.link == i + 1 && |Pieces(st.holes[i], size)| == 2 then 1 else 0
  }

  lemma TakeCell(st: State, i: nat, size: nat)
    requires size in {1, 2, 4, 8} && i < |st.holes| && Fits(st.holes[i], size) && st.link <= |st.holes|
    ensures var (_, st') := Take(st, i, size);
            var mid := Pieces(st.holes[i], size);
            var k := |mid| - Moving(st, i, size);
            && st'.link <= |st'.holes|
            && (st.link <= i ==>
                  && st'.holes[..st'.link] == st.holes[..st.link]
                  && st'.holes[st'.link..] == st.holes[st.link..i] + mid + st.holes[i + 1..])
            && (st.link > i ==>
                  && st'.holes[..st'.link] == st.holes[..i] + mid[..k] + st.holes[i + 1..st.link]
                  && st'.holes[st'.link..] == mid[k..] + st.holes[st.link..])
  {
    TakeSplits(st, i, size);
    LinkAfter(st, i, size);
    var (_, st') := Take(st, i, size);
    var mid := Pieces(st.holes[i], size);
    hide Take, Pieces, Fits;
    if st.link <= i {
      CellBefore(st.holes, st.link, i, mid, st'.holes);
    } else {
      CellBehind(st.holes, st.link, i, mid, |mid| - Moving(st, i, size), st'.holes, st'.link);
    }
  }

  lemma CellBefore(holes: seq<Hole>, link: nat, i: nat, mid: seq<Hole>, now: seq<Hole>)
    requires link <= i < |holes| && now == holes[..i] + mid + holes[i + 1..]
    ensures now[..link] == holes[..link] && now[link..] == holes[link..i] + mid + holes[i + 1..]
  {
    Parts(holes[..link], holes[link..i] + mid + holes[i + 1..], link);
    assert now == holes[..link] + (holes[link..i] + mid + holes[i + 1..]);
  }

  lemma CellBehind(holes: seq<Hole>, link: nat, i: nat, mid: seq<Hole>, k: nat, now: seq<Hole>, cell: nat)
    requires i < link <= |holes| && k <= |mid| && (k < |mid| ==> link == i + 1) && cell == link - 1 + k
    requires now == holes[..i] + mid + holes[i + 1..]
    ensures cell <= |now| && now[..cell] == holes[..i] + mid[..k] + holes[i + 1..link]
    ensures now[cell..] == mid[k..] + holes[link..]
  {
    var front, back := holes[..i] + mid[..k] + holes[i + 1..link], mid[k..] + holes[link..];
    assert now == front + back;
    Parts(front, back, cell);
  }

  lemma LinkAfter(st: State, i: nat, size: nat)
    requires size in {1, 2, 4, 8} && i < |st.holes| && Fits(st.holes[i], size) && st.link <= |st.holes|
    ensures |Pieces(st.holes[i], size)| <= 2
    ensures Take(st, i, size).1.link
         == if st.link <= i then st.link
            else st.link - 1 + |Pieces(st.holes[i], size)| - Moving(st, i, size)
  {
    RoundUpSizes(st.holes[i].offset, size);
    hide RoundUp;
  }

  /** The bits of the pieces. */
  lemma MovingBits(st: State, i: nat, size: nat, b: nat)
    requires size in {1, 2, 4, 8} && i < |st.holes| && Fits(st.holes[i], size) && st.link <= |st.holes|
    ensures var p := st.holes[i];
            var mid := Pieces(p, size);
            var k := |mid| - Moving(st, i, size);
            var t := SlotOf(size, RoundUp(p.offset, size));
            var moved := InHole(p, b) && st.link == i + 1 && 8 * p.offset < t.start && t.start + t.len <= b;
            && k >= 0
            && (InHoles(mid[k..], b) <==> moved)
            && (InHoles(mid[..k], b) <==> InHole(p, b) && !In(t, b) && !moved)
  {
    hide RoundUp;
    var p := st.holes[i];
    RoundUpSizes(p.offset, size);
    var offset := RoundUp(p.offset, size);
    var remain := p.size - (offset - p.offset) - size;
    var x := if offset > p.offset then [Hole(p.offset, offset - p.offset)] else [];
    var y := if remain > 0 then [Hole(offset + size, remain)] else [];
    var mid := Pieces(p, size);
    assert mid == x + y;
    OnePiece(p.offset, offset - p.offset, x, b);
    OnePiece(offset + size, remain, y, b);
    InHolesConcat(x, y, b);
    hide InHoles;
    var k := |mid| - Moving(st, i, size);
    if |mid| == 2 {
      assert mid[..1] == x && mid[1..] == y;
    }
    assert mid[..|mid|] == mid && mid[|mid|..] == [];
    NoBits(b);
    assert k == |mid| || (k == 1 && |mid| == 2);
  }

  lemma OnePiece(offset: nat, size: nat, x: seq<Hole>, b: nat)
    requires x == if size > 0 then [Hole(offset, size)] else []
    ensures InHoles(x, b) <==> 8 * offset <= b < 8 * (offset + size)
  {
    if size > 0 {
      InHolesOne(Hole(offset, size), b);
    }
  }

  /** What taking bytes does to the bits in front of the cell and behind it. */
  lemma TakeBits(r: Run, i: nat, size: nat, b: nat)
    requires Inv(r) && size in {1, 2, 4, 8} && i < |r.st.holes| && Fits(r.st.holes[i], size)
    ensures var st := r.st;
            var (offset, st') := Take(st, i, size);
            var t := SlotOf(size, offset);
            && st'.link <= |st'.holes|
            && (Ahead(st', b) <==> Ahead(st, b) && !In(t, b) && !Remainder(st, t, b))
            && (Exposed(st', b) <==> (Exposed(st, b) && !In(t, b)) || Remainder(st, t, b))
  {
    hide Take, Pieces, Fits, Inv, RoundUp, Remainder, InHole, In, InHoles;
    var st := r.st;
    LinkInside(r);
    TakeCell(st, i, size);
    MovingBits(st, i, size, b);
    TakeSplits(st, i, size);
    TakenInside(st.holes[i], size, b);
    var t := SlotOf(size, Take(st, i, size).0);
    var mid := Pieces(st.holes[i], size);
    var k := |mid| - Moving(st, i, size);
    RemainderHere(r, i, t, b);
    if st.link <= i {
      Around(r, st.link, i, |st.holes|, b);
      assert st.holes[i + 1..|st.holes|] == st.holes[i + 1..] && st.holes[st.link..|st.holes|] == st.holes[st.link..];
      assert mid[..|mid|] == mid;
      Elsewhere(r, 0, st.link, i, b);
      InHolesConcat(st.holes[st.link..i] + mid, st.holes[i + 1..], b);
      InHolesConcat(st.holes[st.link..i], mid, b);
    } else {
      Around(r, 0, i, st.link, b);
      Elsewhere(r, st.link, |st.holes|, i, b);
      assert st.holes[st.link..|st.holes|] == st.holes[st.link..];
      InHolesConcat(st.holes[..i] + mid[..k], st.holes[i + 1..st.link], b);
      InHolesConcat(st.holes[..i], mid[..k], b);
      InHolesConcat(mid[k..], st.holes[st.link..], b);
    }
  }

  lemma TakenInside(p: Hole, size: nat, b: nat)
    requires size in {1, 2, 4, 8} && Fits(p, size)
    ensures var t := SlotOf(size, RoundUp(p.offset, size));
            InHole(p, t.start) && (In(t, b) ==> InHole(p, b))
  {
    RoundUpSizes(p.offset, size);
    hide RoundUp;
  }

  lemma RemainderHere(r: Run, i: nat, t: Slot, b: nat)
    requires Inv(r) && i < |r.st.holes| && InHole(r.st.holes[i], t.start)
    ensures var p := r.st.holes[i];
            r.st.link <= |r.st.holes|
            && (Remainder(r.st, t, b) <==>
                  InHole(p, b) && r.st.link == i + 1 && 8 * p.offset < t.start && t.start + t.len <= b)
  {
    hide Occupied, Divided, Disjoint, AllBacked;
    if r.st.link > 0 && InHole(r.st.holes[r.st.link - 1], t.start) {
      SameHole(r, r.st.link - 1, i, t.start);
    }
  }

  lemma SameHole(r: Run, i: nat, j: nat, b: nat)
    requires Inv(r) && i < |r.st.holes| && j < |r.st.holes| && InHole(r.st.holes[i], b) && InHole(r.st.holes[j], b)
    ensures i == j
  {
    hide Occupied, Divided, Disjoint, AllBacked;
    var holes := r.st.holes;
    assert Sorted(holes);
  }

  /** The holes from a to c with hole i among them. */
  lemma Around(r: Run, a: nat, i: nat, c: nat, b: nat)
    requires Inv(r) && a <= i < c <= |r.st.holes|
    ensures var holes := r.st.holes;
            && (InHoles(holes[a..c], b) <==>
                  InHoles(holes[a..i], b) || InHole(holes[i], b) || InHoles(holes[i + 1..c], b))
            && (InHole(holes[i], b) ==> !InHoles(holes[a..i], b) && !InHoles(holes[i + 1..c], b))
  {
    hide Inv, InHole;
    var holes := r.st.holes;
    assert holes[a..c] == holes[a..i] + [holes[i]] + holes[i + 1..c];
    InHolesConcat(holes[a..i] + [holes[i]], holes[i + 1..c], b);
    InHolesConcat(holes[a..i], [holes[i]], b);
    InHolesOne(holes[i], b);
    Elsewhere(r, a, i, i, b);
    Elsewhere(r, i + 1, c, i, b);
    hide InHoles;
  }

  /** A bit of hole i lies in none of the holes from a to c if those are others. */
  lemma Elsewhere(r: Run, a: nat, c: nat, i: nat, b: nat)
    requires Inv(r) && a <= c <= |r.st.holes| && i < |r.st.holes| && !(a <= i < c)
    ensures InHole(r.st.holes[i], b) ==> !InHoles(r.st.holes[a..c], b)
  {
    hide Inv, InHole;
    if InHole(r.st.holes[i], b) {
      forall j | 0 <= j < c - a
        ensures !InHole(r.st.holes[a..c][j], b)
      {
        if InHole(r.st.holes[a + j], b) {
          SameHole(r, a + j, i, b);
        }
      }
    }
  }

  // ---------------------------------------------------------------- one placement

  /** What a placement does to the bits in front of the cell, behind it, and lost.  Using up, shrinking or
      splitting a hole moves no bit across the cell but what remains of the hole in front of it; only a new
      hole cuts holes off, and exactly those behind the cell. */
  lemma CellStep(r: Run, size: nat, b: nat)
    requires Inv(r) && ScalarSize(size)
    ensures r.st.link <= |r.st.holes| && Place(r, size).st.link <= |Place(r, size).st.holes|
    ensures var t, st, q := Taken(size, Chosen(r, size)), r.st, Place(r, size);
            && (Ahead(q.st, b) <==>
                  if AtEnd(st, t) then Ahead(st, b) || 8 * st.ssize <= b < t.start
                  else Ahead(st, b) && !In(t, b) && !Remainder(st, t, b))
            && (Exposed(q.st, b) <==>
                  if Gap(st, t) then false else (Exposed(st, b) && !In(t, b)) || Remainder(st, t, b))
            && (InHoles(q.lost, b) <==> InHoles(r.lost, b) || (Gap(st, t) && Exposed(st, b)))
  {
    hide Inv, Take, Remainder, InHoles, InHole, Fits, In, FirstFit, RoundUp;
    LinkInside(r);
    PlaceInv(r, size);
    LinkInside(Place(r, size));
    var st, q := r.st, Place(r, size);
    if size == 0 && st.bit % 8 != 0 {
      OpenByteStep(r, b);
    } else if FirstFit(st.holes, if size == 0 then 1 else size) < |st.holes| {
      HoleStep(r, size, b);
    } else {
      EndStep(r, size, b);
    }
  }

  /** A bool in the open byte. */
  lemma OpenByteStep(r: Run, b: nat)
    requires Inv(r) && r.st.bit % 8 != 0
    ensures r.st.link <= |r.st.holes|
    ensures var t, st := Taken(0, Chosen(r, 0)), r.st;
            && Place(r, 0).st == st.(bit := st.bit + 1) && Place(r, 0).lost == r.lost
            && !AtEnd(st, t) && !Remainder(st, t, b)
            && (Ahead(st, b) || Exposed(st, b) ==> !In(t, b))
  {
    hide Inv, InHoles, InHole;
    LinkInside(r);
    var st := r.st;
    var t := Slot(8 * (st.bit / 8), 8);
    OpenBelow(r);
    if st.link > 0 {
      NotOpen(r, st.link - 1);
      SameByte(st.holes[st.link - 1], t.start, st.bit);
    }
    if In(t, b) {
      assert st.holes == st.holes[..st.link] + st.holes[st.link..];
      InHolesConcat(st.holes[..st.link], st.holes[st.link..], b);
      if InHoles(st.holes, b) {
        var i := ListedHole(st.holes, b);
        NotOpen(r, i);
        SameByte(st.holes[i], b, st.bit);
      }
    }
  }

  lemma SameByte(h: Hole, b: nat, c: nat)
    requires b / 8 == c / 8
    ensures InHole(h, b) <==> InHole(h, c)
  {
  }

  lemma ListedHole(holes: seq<Hole>, b: nat) returns (i: nat)
    requires InHoles(holes, b)
    ensures i < |holes| && InHole(holes[i], b)
  {
    i :| 0 <= i < |holes| && InHole(holes[i], b);
  }

  /** No hole holds the next bit of the open byte. */
  lemma NotOpen(r: Run, i: nat)
    requires Inv(r) && r.st.bit % 8 != 0 && i < |r.st.holes|
    ensures !InHole(r.st.holes[i], r.st.bit)
  {
    hide Occupied;
    OpenNext(r.st.bit, 0);
    assert InOpenByte(r.st, r.st.bit);
    if InHole(r.st.holes[i], r.st.bit) {
      HoleListed(r.st.holes, i, r.st.bit);
    }
  }

  lemma HoleStep(r: Run, size: nat, b: nat)
    requires Inv(r) && ScalarSize(size) && (size == 0 ==> r.st.bit % 8 == 0)
    requires FirstFit(r.st.holes, if size == 0 then 1 else size) < |r.st.holes|
    ensures r.st.link <= |r.st.holes| && Place(r, size).st.link <= |Place(r, size).st.holes|
    ensures var t, st, q := Taken(size, Chosen(r, size)), r.st, Place(r, size);
            && !AtEnd(st, t) && q.lost == r.lost
            && (Ahead(q.st, b) <==> Ahead(st, b) && !In(t, b) && !Remainder(st, t, b))
            && (Exposed(q.st, b) <==> (Exposed(st, b) && !In(t, b)) || Remainder(st, t, b))
  {
    hide Inv, Take, Remainder, InHoles, Fits, FirstFit, RoundUp;
    LinkInside(r);
    var n := if size == 0 then 1 else size;
    var i := FirstFit(r.st.holes, n);
    TakeBits(r, i, n, b);
    TakeSplits(r.st, i, n);
    var t := SlotOf(n, Take(r.st, i, n).0);
    FitsInside(r.st.holes[i], n);
    HoleListed(r.st.holes, i, t.start);
    HolesBelow(r, t.start);
  }

  lemma EndStep(r: Run, size: nat, b: nat)
    requires Inv(r) && ScalarSize(size) && (size == 0 ==> r.st.bit % 8 == 0)
    requires FirstFit(r.st.holes, if size == 0 then 1 else size) == |r.st.holes|
    ensures r.st.link <= |r.st.holes| && Place(r, size).st.link <= |Place(r, size).st.holes|
    ensures var t, st, q := Taken(size, Chosen(r, size)), r.st, Place(r, size);
            && AtEnd(st, t)
            && (Ahead(q.st, b) <==> Ahead(st, b) || 8 * st.ssize <= b < t.start)
            && (Exposed(q.st, b) <==> !Gap(st, t) && Exposed(st, b))
            && (InHoles(q.lost, b) <==> InHoles(r.lost, b) || (Gap(st, t) && Exposed(st, b)))
            && !Remainder(st, t, b) && (Exposed(st, b) ==> !In(t, b))
  {
    hide Inv, InHoles, FirstFit, RoundUp;
    LinkInside(r);
    var st, q := r.st, Place(r, size);
    var t := Taken(size, Chosen(r, size));
    HolesBelow(r, b);
    HolesBelow(r, t.start);
    assert st.holes == st.holes[..st.link] + st.holes[st.link..];
    InHolesConcat(st.holes[..st.link], st.holes[st.link..], b);
    if st.link > 0 {
      assert InHole(st.holes[st.link - 1], t.start) ==> InHoles(st.holes, t.start) by {
        if InHole(st.holes[st.link - 1], t.start) {
          HoleListed(st.holes, st.link - 1, t.start);
        }
      }
    }
    if size > 0 {
      RoundUpSizes(st.ssize, size);
      Aligned(st.ssize, size);
      if RoundUp(st.ssize, size) > st.ssize {
        var h := Hole(st.ssize, RoundUp(st.ssize, size) - st.ssize);
        InHolesConcat(st.holes[..st.link], [h], b);
        InHolesOne(h, b);
        assert q.st.holes[q.st.link..] == [] && q.st.holes[..q.st.link] == q.st.holes;
        NoBits(b);
        InHolesConcat(r.lost, st.holes[st.link..], b);
      }
    }
  }

  lemma NoBits(b: nat)
    ensures !InHoles([], b)
  {
  }

  /** Holes are cut off by exactly those placements that leave a gap while holes lie behind the cell. */
  lemma DropsIff(r: Run, size: nat)
    requires Inv(r) && ScalarSize(size)
    ensures r.st.link <= |r.st.holes|
    ensures Drops(r.st, size) <==> Gap(r.st, Taken(size, Chosen(r, size))) && exists b: nat :: Exposed(r.st, b)
  {
    hide Inv, InHoles, FirstFit, Place;
    LinkInside(r);
    LostOne(r, size);
    forall b: nat
      ensures InHoles(Place(r, size).lost, b) <==>
                InHoles(r.lost, b) || (Gap(r.st, Taken(size, Chosen(r, size))) && Exposed(r.st, b))
    {
      CellStep(r, size, b);
    }
    if Drops(r.st, size) {
      ExposedBit(r);
      GapOfDrop(r, size);
    } else if Gap(r.st, Taken(size, Chosen(r, size))) {
      forall b: nat
        ensures !Exposed(r.st, b)
      {
        if Exposed(r.st, b) {
          LostApart(r, b);
        }
      }
    }
  }

  lemma GapOfDrop(r: Run, size: nat)
    requires Inv(r) && ScalarSize(size) && r.st.link <= |r.st.holes| && Drops(r.st, size)
    ensures Gap(r.st, Taken(size, Chosen(r, size)))
  {
    hide Inv, FirstFit;
    Aligned(r.st.ssize, size);
    RoundUpSizes(r.st.ssize, size);
  }

  lemma ExposedBit(r: Run)
    requires Inv(r) && r.st.link < |r.st.holes|
    ensures exists b: nat :: Exposed(r.st, b)
  {
    hide Occupied;
    var behind := r.st.holes[r.st.link..];
    assert behind[0] == r.st.holes[r.st.link];
    BackedSizes(r.st.holes, r.placed, r.st.ssize);
    assert InHole(behind[0], 8 * behind[0].offset);
    HoleListed(behind, 0, 8 * behind[0].offset);
    assert Exposed(r.st, 8 * behind[0].offset);
  }

  /** A bit behind the cell is not lost yet. */
  lemma LostApart(r: Run, b: nat)
    requires Inv(r) && r.st.link <= |r.st.holes| && Exposed(r.st, b)
    ensures !InHoles(r.lost, b)
  {
    hide Occupied, InHoles;
    assert r.st.holes == r.st.holes[..r.st.link] + r.st.holes[r.st.link..];
    InHolesConcat(r.st.holes[..r.st.link], r.st.holes[r.st.link..], b);
  }

  // ---------------------------------------------------------------- whole lists

  /** This placement splits the hole in front of the cell and leaves bit b of it behind. */
  predicate Cuts(r: Run, size: nat, b: nat)
    requires Inv(r)
  {
    LinkInside(r);
    Remainder(r.st, Taken(size, Chosen(r, size)), b)
  }

  /** Some placement of the list does. */
  predicate CutSomewhere(r: Run, sizes: seq<nat>, b: nat)
    requires Inv(r) && forall i :: 0 <= i < |sizes| ==> ScalarSize(sizes[i])
    decreases |sizes|
  {
    sizes != []
    && (Cuts(r, sizes[0], b)
        || (PlaceInv(r, sizes[0]);
            CutSomewhere(Place(r, sizes[0]), sizes[1..], b)))
  }

  ghost predicate AtRisk(r: Run, b: nat)
    requires Inv(r)
  {
    LinkInside(r);
    Exposed(r.st, b) || InHoles(r.lost, b)
  }

  /** Whatever is lost in the end, or behind the cell, was so at the start, or was left behind when the hole
      in front of the cell was split. */
  lemma {:induction false} LossFromCut(r: Run, sizes: seq<nat>, b: nat)
    requires Inv(r) && forall i :: 0 <= i < |sizes| ==> ScalarSize(sizes[i])
    ensures Inv(L.Layout(r, sizes))
    ensures AtRisk(L.Layout(r, sizes), b) ==> AtRisk(r, b) || CutSomewhere(r, sizes, b)
    decreases |sizes|
  {
    hide Inv, InHoles, Place, Remainder, Chosen, Taken;
    LayoutInv(r, sizes);
    if sizes != [] {
      LinkInside(r);
      PlaceInv(r, sizes[0]);
      LossFromCut(Place(r, sizes[0]), sizes[1..], b);
      CellStep(r, sizes[0], b);
    }
  }

  lemma NoRisk(b: nat)
    ensures Inv(START) && !AtRisk(START, b)
  {
    StartInv();
  }

  /** A list that never splits the hole in front of the cell loses nothing: it is laid out by the rule of
      the specification, and every free byte stays listed. */
  lemma NoCutNoLoss(sizes: seq<nat>)
    requires forall i :: 0 <= i < |sizes| ==> ScalarSize(sizes[i])
    requires Inv(START) && forall b: nat :: !CutSomewhere(START, sizes, b)
    ensures NoDrops(START, sizes)
    ensures FollowsRule(L.Layout(START, sizes).placed) && FullyListed(L.Layout(START, sizes))
  {
    hide Inv, InHoles, CutSomewhere, L.Layout, Minimal, FullyListed;
    LayoutInv(START, sizes);
    var r := L.Layout(START, sizes);
    if r.lost != [] {
      var b := SomeLostBit(r);
      LossFromCut(START, sizes, b);
      NoRisk(b);
    }
    PartitionIff(sizes);
    NoDropsNoneMissed(START, sizes);
    LayoutRuleIff(START, sizes);
  }

  lemma SomeLostBit(r: Run) returns (b: nat)
    requires Inv(r) && r.lost != []
    ensures InHoles(r.lost, b)
  {
    hide Occupied;
    assert Backed(r.lost[0], r.placed, r.st.ssize);
    b := 8 * r.lost[0].offset;
    assert InHole(r.lost[0], b);
    HoleListed(r.lost, 0, b);
  }

  // ---------------------------------------------------------------- a hole that is used up

  lemma GapStep(r: Run)
    requires r.st == State([], 0, 0, 1)
    ensures Place(r, 2).st == State([Hole(1, 1)], 1, 0, 4) && Place(r, 2).placed == r.placed + [Slot(16, 16)]
  {
  }

  lemma NextStep(r: Run)
    requires r.st == State([Hole(1, 1)], 1, 0, 4)
    ensures Place(r, 2).st == State([Hole(1, 1)], 1, 0, 6) && Place(r, 2).placed == r.placed + [Slot(32, 16)]
  {
    assert r.st.holes[1..] == [] && FirstFit(r.st.holes, 2) == 1;
  }

  lemma SecondGapStep(r: Run)
    requires r.st == State([Hole(1, 1)], 1, 0, 6)
    ensures Place(r, 4).st == State([Hole(1, 1), Hole(6, 2)], 2, 0, 12)
    ensures Place(r, 4).placed == r.placed + [Slot(64, 32)]
  {
    assert r.st.holes[1..] == [] && FirstFit(r.st.holes, 4) == 1;
  }

  lemma UsedUpStep(r: Run)
    requires r.st == State([Hole(1, 1), Hole(6, 2)], 2, 0, 12)
    ensures Place(r, 1).st == State([Hole(6, 2)], 1, 0, 12) && Place(r, 1).placed == r.placed + [Slot(8, 8)]
  {
    assert r.st.holes[1..] == [Hole(6, 2)] && FirstFit(r.st.holes, 1) == 0;
  }

  lemma ThirdGapStep(r: Run)
    requires r.st == State([Hole(6, 2)], 1, 0, 12)
    ensures Place(r, 8).st == State([Hole(6, 2), Hole(12, 4)], 2, 0, 24)
    ensures Place(r, 8).placed == r.placed + [Slot(128, 64)]
  {
    assert r.st.holes[1..] == [] && FirstFit(r.st.holes, 8) == 1;
  }

  lemma KeptStep(r: Run)
    requires r.st == State([Hole(6, 2), Hole(12, 4)], 2, 0, 24)
    ensures Place(r, 1).placed == r.placed + [Slot(48, 8)]
  {
    assert FirstFit(r.st.holes, 1) == 0;
  }

  /** `a: int8 b: int16 c: int16 d: int32 e: int8 f: int64 g: int8`: e uses the hole at 1 up, the cell stays behind
      the hole at 6, and so f cuts nothing off and g goes to 6. */
  lemma UsedUpKeepsRest()
    ensures Inv(START)
    ensures L.Layout(START, [1, 2, 2, 4, 1, 8, 1]).placed
         == [Slot(0, 8), Slot(16, 16), Slot(32, 16), Slot(64, 32), Slot(8, 8), Slot(128, 64), Slot(48, 8)]
  {
    StartInv();
    hide Inv, Place, Drops, L.Layout, NoDrops;
    FirstStep(START);
    Unroll(START, 1, [2, 2, 4, 1, 8, 1]);
    var r1 := Place(START, 1);
    GapStep(r1);
    Unroll(r1, 2, [2, 4, 1, 8, 1]);
    var r2 := Place(r1, 2);
    NextStep(r2);
    Unroll(r2, 2, [4, 1, 8, 1]);
    var r3 := Place(r2, 2);
    SecondGapStep(r3);
    Unroll(r3, 4, [1, 8, 1]);
    FourthOn(Place(r3, 4));
    assert [1, 2, 2, 4, 1, 8, 1] == [1] + [2, 2, 4, 1, 8, 1] && [2, 2, 4, 1, 8, 1] == [2] + [2, 4, 1, 8, 1];
    assert [2, 4, 1, 8, 1] == [2] + [4, 1, 8, 1] && [4, 1, 8, 1] == [4] + [1, 8, 1];
  }

  lemma FourthOn(r: Run)
    requires Inv(r) && r.st == State([Hole(1, 1), Hole(6, 2)], 2, 0, 12)
    ensures L.Layout(r, [1, 8, 1]).placed == r.placed + [Slot(8, 8), Slot(128, 64), Slot(48, 8)]
  {
    hide Inv, Place, Drops, L.Layout, NoDrops;
    UsedUpStep(r);
    Unroll(r, 1, [8, 1]);
    var r1 := Place(r, 1);
    ThirdGapStep(r1);
    Unroll(r1, 8, [1]);
    var r2 := Place(r1, 8);
    KeptStep(r2);
    Unroll(r2, 1, []);
    UnrollNil(Place(r2, 1));
    assert [1, 8, 1] == [1] + [8, 1] && [8, 1] == [8] + [1] && [1] == [1] + [];
  }
}
