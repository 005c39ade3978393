/** Pools in which every object has at most one owner.  Changes below one object then leave the trees of
    all others as they are. */
module Forest {
  import opened Bytes
  import opened Wire
  import opened Pool
  import opened Decode
  import opened Cells

  /** A pointer slot: object, element, index. */
  datatype Owner = Owner(k: nat, e: nat, i: nat)

  /** The id in a slot; 0 if there is no such slot. */
  function Target(P: Pool, o: Owner): nat {
    if o.k < |P| && o.e < Head(P[o.k]).nelem && o.i < Head(P[o.k]).psize then Slot(P[o.k], o.e, o.i) else 0
  }

  /** own names the only slot that may lead to each object. */
  ghost predicate Owned(P: Pool, own: seq<Owner>) {
    |own| == |P| && forall o: Owner :: Target(P, o) != 0 ==> Target(P, o) < |P| && own[Target(P, o)] == o
  }

  /** Objects have single owners, and unused bits of bit lists are zero. */
  ghost predicate Tidy(P: Pool)
    requires WF(P)
  {
    (exists own :: Owned(P, own)) && forall k :: 0 <= k < |P| ==> SpareBitsZero(P[k])
  }

  lemma OneOwner(P: Pool, o: Owner, q: Owner)
    requires WF(P) && Tidy(P) && Target(P, o) == Target(P, q) != 0
    ensures o == q
  {
    hide WF, Target, SpareBitsZero;
    var own :| Owned(P, own);
  }

  lemma SpareAt(P: Pool, k: nat)
    requires WF(P) && Tidy(P) && k < |P|
    ensures SpareBitsZero(P[k])
  {
    hide WF, SpareBitsZero;
  }

  lemma TidyWith(P: Pool, own: seq<Owner>)
    requires WF(P) && Owned(P, own) && forall k :: 0 <= k < |P| ==> SpareBitsZero(P[k])
    ensures Tidy(P)
  {
    hide WF, SpareBitsZero;
  }

  lemma TargetInside(P: Pool, o: Owner)
    requires WF(P) && Target(P, o) != 0
    ensures o.k < Target(P, o) < |P|
  {
    assert SlotsOK(P, o.k);
  }

  /** One object replaced by another with the same links. */
  lemma TidyReplace(P: Pool, k: nat, c: seq<byte>)
    requires WF(P) && Tidy(P) && k < |P| && WF(P[k := c]) && WFObj(c) && SpareBitsZero(c)
    requires Head(c).psize == Head(P[k]).psize && Head(c).nelem >= Head(P[k]).nelem
    requires forall d, i :: 0 <= d < Head(c).nelem && 0 <= i < Head(c).psize ==>
               Slot(c, d, i) == if d < Head(P[k]).nelem then Slot(P[k], d, i) else 0
    ensures Tidy(P[k := c])
  {
    hide WF, SpareBitsZero, Head, Slot;
    var Q := P[k := c];
    forall o: Owner
      ensures Target(Q, o) == Target(P, o)
    {
    }
    var own :| Owned(P, own);
    hide Target;
    assert Owned(Q, own);
    TidyWith(Q, own);
  }

  /** A new object, linked once. */
  lemma TidyLink(P: Pool, k: nat, e: nat, i: nat, b: seq<byte>)
    requires WF(P) && Tidy(P) && k < |P| && e < Head(P[k]).nelem && i < Head(P[k]).psize
    requires WFObj(b) && NoLinks(b) && SpareBitsZero(b) && |P| + 1 < 0x8000_0000
    ensures WF(Linked(P, k, e, i, b)) && Tidy(Linked(P, k, e, i, b))
  {
    hide WF, WFObj, SpareBitsZero, Head, Slot, NoLinks, PoolScalar, Linked, Tidy, Target, Owned;
    LinkCells(P, k, e, i, b);
    var Q := Linked(P, k, e, i, b);
    var own: seq<Owner> := TidyParts(P);
    forall o: Owner
      ensures Target(Q, o) != 0 ==> Target(Q, o) < |Q| && (own + [Owner(k, e, i)])[Target(Q, o)] == o
    {
      LinkTarget(P, k, e, i, b, o);
      OwnAt(P, own, o);
    }
    OwnedIs(Q, own + [Owner(k, e, i)]);
    ObjAt(P, k);
    ObjAt(Q, k);
    SpareSlots(P[k], Q[k]);
    TidyWith(Q, own + [Owner(k, e, i)]);
  }

  lemma TidyParts(P: Pool) returns (own: seq<Owner>)
    requires WF(P) && Tidy(P)
    ensures Owned(P, own) && forall k :: 0 <= k < |P| ==> SpareBitsZero(P[k])
  {
    own :| Owned(P, own);
  }

  lemma OwnAt(P: Pool, own: seq<Owner>, o: Owner)
    requires Owned(P, own)
    ensures |own| == |P|
    ensures Target(P, o) != 0 ==> Target(P, o) < |P| && own[Target(P, o)] == o
  {
  }

  lemma OwnedIs(P: Pool, own: seq<Owner>)
    requires |own| == |P|
    requires forall o: Owner :: Target(P, o) != 0 ==> Target(P, o) < |P| && own[Target(P, o)] == o
    ensures Owned(P, own)
  {
  }

  lemma SpareSlots(b: seq<byte>, c: seq<byte>)
    requires WFObj(b) && WFObj(c) && Head(c).psize == Head(b).psize > 0
    ensures SpareBitsZero(c)
  {
  }

  lemma LinkTarget(P: Pool, k: nat, e: nat, i: nat, b: seq<byte>, o: Owner)
    requires WF(P) && k < |P| && e < Head(P[k]).nelem && i < Head(P[k]).psize
    requires WFObj(b) && NoLinks(b) && |P| + 1 < 0x8000_0000
    ensures Target(Linked(P, k, e, i, b), o) == if o == Owner(k, e, i) then |P| else Target(P, o)
  {
    hide WF, WFObj, Slot, Head, PoolScalar, Linked;
    LinkCells(P, k, e, i, b);
  }

  // ---------------------------------------------------------------- trees that are not touched

  /** Nothing from object x on leads to object t. */
  ghost predicate Avoids(P: Pool, x: nat, t: nat) {
    forall o: Owner :: o.k >= x ==> Target(P, o) != t
  }

  /** The tree below x depends only on the objects from x on, and not on one that none of them leads to. */
  lemma {:induction false} TreeAgrees(P: Pool, Q: Pool, x: nat, t: nat)
    requires WF(P) && WF(Q) && x < |P| <= |Q| && x != t && t != 0 && Avoids(P, x, t)
    requires forall j :: x <= j < |P| && j != t ==> Q[j] == P[j]
    ensures DecodePool(Q, x) == DecodePool(P, x)
    decreases |P| - x
  {
    var h := Head(P[x]);
    assert Q[x] == P[x];
    forall e | 0 <= e < h.nelem
      ensures DecodePoolElem(Q, x, e) == DecodePoolElem(P, x, e)
    {
      forall i | 0 <= i < h.psize
        ensures DecodeSlot(Q, x, e, i) == DecodeSlot(P, x, e, i)
      {
        SlotAgrees(P, Q, x, e, i, t);
      }
      hide DecodeSlot;
    }
    hide DecodePoolElem;
  }

  lemma {:induction false} SlotAgrees(P: Pool, Q: Pool, x: nat, e: nat, i: nat, t: nat)
    requires WF(P) && WF(Q) && x < |P| <= |Q| && x != t && t != 0 && Avoids(P, x, t)
    requires e < Head(P[x]).nelem && i < Head(P[x]).psize
    requires forall j :: x <= j < |P| && j != t ==> Q[j] == P[j]
    ensures DecodeSlot(Q, x, e, i) == DecodeSlot(P, x, e, i)
    decreases |P| - x, 0
  {
    hide WF, Slot, Head;
    var o := Owner(x, e, i);
    assert Target(P, o) == Slot(P[x], e, i) && Target(P, o) != t;
    if Target(P, o) != 0 {
      TargetInside(P, o);
      TreeAgrees(P, Q, Target(P, o), t);
    }
  }
}
