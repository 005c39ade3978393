/** The allocator as the schema compiler runs it: a mutable free list, one message after the other. */
module Allocator {
  import opened Wire
  import opened Layout
  import L = Layout

  class Allocator {
    var holes: seq<Hole>
    /** How many nodes precede the cell that the next hole will be stored in. */
    var link: nat
    var bitOffs: nat

    predicate Valid()
      reads this
    {
      link <= |holes|
    }

    function St(ssize: nat): State
      reads this
    {
      State(holes, link, bitOffs, ssize)
    }

    constructor ()
      ensures Valid() && St(0) == EMPTY
    {
      holes, link, bitOffs := [], 0, 0;
    }

    method Clear()
      modifies this
      ensures Valid() && St(0) == EMPTY
    {
      holes, link, bitOffs := [], 0, 0;
    }

    /** Looks for the first hole that can hold the scalar; -1 if there is none. */
    method FindPaddingSpace(size: nat, ghost ssize: nat) returns (offset: int)
      requires Valid() && ScalarSize(size)
      requires forall i :: 0 <= i < |holes| ==> holes[i].size > 0
      modifies this
      ensures Valid()
      ensures offset == -1 <==> if size == 0 then old(bitOffs) % 8 == 0 && old(holes) == []
                               else FirstFit(old(holes), size) == |old(holes)|
      ensures offset == -1 ==> St(ssize) == old(St(ssize))
      ensures offset != -1 ==> offset >= 0 && (offset, St(ssize)) == L.CalculateOffset(old(St(ssize)), size)
    {
      var want := size;
      if size == 0 {
        if bitOffs % 8 != 0 {
          offset := bitOffs;
          bitOffs := bitOffs + 1;
          return;
        }
        want := 1;
      }
      var i := 0;
      while i < |holes| && !Fits(holes[i], want)
        invariant i <= |holes|
        invariant forall j :: 0 <= j < i ==> !Fits(holes[j], want)
      {
        i := i + 1;
      }
      FirstFitIs(holes, want, i);
      FirstByteFits(holes);
      if i == |holes| {
        return -1;
      }
      offset := TakeFrom(i, want, ssize);
      if size == 0 {
        bitOffs := 8 * offset;
        offset := bitOffs;
        bitOffs := bitOffs + 1;
      }
    }

    /** Splits, shrinks or removes hole i. */
    method TakeFrom(i: nat, size: nat, ghost ssize: nat) returns (offset: nat)
      requires Valid() && size in {1, 2, 4, 8} && i < |holes| && Fits(holes[i], size)
      modifies this`holes, this`link
      ensures Valid() && (offset, St(ssize)) == Take(old(St(ssize)), i, size)
    {
      var p := holes[i];
      RoundUpSizes(p.offset, size);
      hide RoundUp;
      offset := RoundUp(p.offset, size);
      var padding := offset - p.offset;
      if padding > 0 {
        var remain := p.size - padding - size;
        holes := holes[i := Hole(p.offset, padding)];
        if remain > 0 {
          holes := holes[..i + 1] + [Hole(offset + size, remain)] + holes[i + 1..];
          if link > i + 1 {
            link := link + 1;
          }
          assert holes == old(holes)[..i] + [Hole(p.offset, padding), Hole(offset + size, remain)]
                          + old(holes)[i + 1..];
        }
      } else if p.size > size {
        holes := holes[i := Hole(p.offset + size, p.size - size)];
      } else {
        holes := holes[..i] + holes[i + 1..];
        if link > i {
          link := link - 1;
        }
      }
    }

    method AddPaddingSpace(offset: nat, size: nat, ghost ssize: nat)
      requires Valid()
      modifies this
      ensures Valid() && St(ssize) == AddHole(old(St(ssize)), Hole(offset, size))
    {
      holes := holes[..link] + [Hole(offset, size)];
      link := link + 1;
    }

    /** Places one scalar; the scalar part must not outgrow 16 bits. */
    method CalculateOffset(ssize: nat, size: nat) returns (offset: nat, ssize': nat)
      requires Valid() && ScalarSize(size) && L.CalculateOffset(St(ssize), size).1.ssize < U16
      requires forall i :: 0 <= i < |holes| ==> holes[i].size > 0
      modifies this
      ensures Valid() && (offset, St(ssize')) == L.CalculateOffset(old(St(ssize)), size)
      ensures ssize' < U16
    {
      var found := FindPaddingSpace(size, ssize);
      if found != -1 {
        return found, ssize;
      }
      if size == 0 {
        bitOffs := 8 * ssize;
        offset := bitOffs;
        bitOffs := bitOffs + 1;
        ssize' := ssize + 1;
      } else {
        RoundUpSizes(ssize, size);
        offset := RoundUp(ssize, size);
        var padding := offset - ssize;
        if padding > 0 {
          AddPaddingSpace(ssize, padding, ssize);
        }
        ssize' := ssize + padding + size;
      }
    }
  }

  lemma {:induction false} FirstFitIs(holes: seq<Hole>, size: nat, i: nat)
    requires size > 0 && i <= |holes|
    requires forall j :: 0 <= j < i ==> !Fits(holes[j], size)
    requires i < |holes| ==> Fits(holes[i], size)
    ensures FirstFit(holes, size) == i
  {
    if i > 0 {
      assert !Fits(holes[0], size);
      FirstFitIs(holes[1..], size, i - 1);
    }
  }

  lemma FirstByteFits(holes: seq<Hole>)
    requires forall i :: 0 <= i < |holes| ==> holes[i].size > 0
    ensures holes != [] ==> FirstFit(holes, 1) == 0
  {
    if holes != [] {
      RoundUpSizes(holes[0].offset, 1);
    }
  }
}
