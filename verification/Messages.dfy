/** Laying out whole message types (nbufc/t2b.c), and what the layout means for the accessors of a
    message: fields never interfere and every field is aligned. */
module Messages {
  import opened Wire
  import opened Layout
  import opened Allocator

  /** What a field needs: scalar bytes (0 for a bool) or a pointer word. */
  datatype Field = Scalar(size: nat) | Pointer

  predicate ValidField(f: Field) {
    f.Scalar? ==> ScalarSize(f.size)
  }

  predicate ValidFields(fields: seq<Field>) {
    forall i :: 0 <= i < |fields| ==> ValidField(fields[i])
  }

  /** The compiler's state inside one message: the scalar layout, the pointers so far, the tags handed
      out, and the alignment, which is carried over from message to message. */
  datatype MsgState = MsgState(run: Run, psize: nat, tags: seq<nat>, align: nat)

  function StepField(m: MsgState, f: Field): MsgState
    requires m.run.st.link <= |m.run.st.holes|
  {
    match f
    case Scalar(size) =>
      MsgState(Place(m.run, size), m.psize, m.tags + [CalculateOffset(m.run.st, size).0],
               if m.align < size then size else m.align)
    case Pointer =>
      MsgState(m.run, m.psize + 1, m.tags + [m.psize], if m.align < 4 then 4 else m.align)
  }

  ghost predicate MsgInv(m: MsgState, fields: seq<Field>, align: nat) {
    && Inv(m.run) && Conserved(m.run)
    && |m.tags| == |fields|
    && |m.run.placed| == Rank(fields, |fields|)
    && m.psize == |fields| - Rank(fields, |fields|)
    && (forall i :: 0 <= i < |fields| ==> TagOK(m, fields, i))
    && m.align in {0, 1, 2, 4, 8} && m.align >= align
  }

  /** The number of scalar fields in front of field i. */
  function Rank(fields: seq<Field>, i: nat): (r: nat)
    requires i <= |fields|
    ensures r <= i
  {
    if i == 0 then 0 else Rank(fields, i - 1) + (if fields[i - 1].Scalar? then 1 else 0)
  }

  /** Tag i names the slot of a scalar field, or the index of a pointer field among the pointers. */
  ghost predicate TagOK(m: MsgState, fields: seq<Field>, i: nat)
    requires i < |fields| && |m.tags| == |fields|
  {
    match fields[i]
    case Scalar(size) =>
      && Rank(fields, i) < |m.run.placed|
      && m.run.placed[Rank(fields, i)] == SlotOf(size, m.tags[i])
      && (size > 0 ==> m.tags[i] % size == 0)
      && size <= m.align
    case Pointer =>
      && m.tags[i] == i - Rank(fields, i)
      && m.align >= 4
  }

  /** The state after all fields of a message, with the alignment the compiler brings along. */
  function LayFields(fields: seq<Field>, align: nat): (m: MsgState)
    requires ValidFields(fields) && align in {0, 1, 2, 4, 8}
    ensures MsgInv(m, fields, align)
  {
    if fields == [] then
      NoFields(align);
      MsgState(START, 0, [], align)
    else
      var m := LayFields(fields[..|fields| - 1], align);
      LastField(m, fields, align);
      StepField(m, fields[|fields| - 1])
  }

  lemma NoFields(align: nat)
    requires align in {0, 1, 2, 4, 8}
    ensures MsgInv(MsgState(START, 0, [], align), [], align)
  {
    hide Inv, Conserved, TagOK;
    StartInv();
    StartConserved();
  }

  lemma StartConserved()
    ensures Conserved(START)
  {
  }

  lemma LastField(m: MsgState, fields: seq<Field>, align: nat)
    requires fields != [] && ValidFields(fields) && MsgInv(m, fields[..|fields| - 1], align)
    ensures m.run.st.link <= |m.run.st.holes|
    ensures MsgInv(StepField(m, fields[|fields| - 1]), fields, align)
  {
    hide MsgInv, StepField;
    assert fields == fields[..|fields| - 1] + [fields[|fields| - 1]];
    StepInv(m, fields[..|fields| - 1], fields[|fields| - 1], align);
  }

  lemma {:induction false} RankPrefix(fields: seq<Field>, more: seq<Field>, i: nat)
    requires i <= |fields|
    ensures Rank(fields + more, i) == Rank(fields, i)
  {
    if i > 0 {
      RankPrefix(fields, more, i - 1);
    }
  }

  lemma {:induction false} RankMono(fields: seq<Field>, i: nat, j: nat)
    requires i <= j <= |fields|
    ensures Rank(fields, i) <= Rank(fields, j) && j - Rank(fields, j) >= i - Rank(fields, i)
    decreases j
  {
    if i < j {
      RankMono(fields, i, j - 1);
    }
  }

  lemma StepInv(m: MsgState, fields: seq<Field>, f: Field, align: nat)
    requires MsgInv(m, fields, align) && ValidField(f)
    ensures m.run.st.link <= |m.run.st.holes|
    ensures MsgInv(StepField(m, f), fields + [f], align)
  {
    LinkInside(m.run);
    hide Inv, Conserved, TagOK, Place, CalculateOffset;
    var q, all := StepField(m, f), fields + [f];
    StepCounts(m, fields, f);
    if f.Scalar? {
      PlaceInv(m.run, f.size);
      PlaceConserves(m.run, f.size);
    }
    hide StepField;
    forall i | 0 <= i < |all|
      ensures TagOK(q, all, i)
    {
      if i < |fields| {
        OldTag(m, fields, f, i);
      } else {
        NewTag(m, fields, f);
      }
    }
  }

  lemma StepCounts(m: MsgState, fields: seq<Field>, f: Field)
    requires m.run.st.link <= |m.run.st.holes| && ValidField(f) && |m.tags| == |fields|
    requires |m.run.placed| == Rank(fields, |fields|) && m.psize == |fields| - Rank(fields, |fields|)
    ensures var q, all := StepField(m, f), fields + [f];
            && |q.tags| == |all| && |q.run.placed| == Rank(all, |all|)
            && q.psize == |all| - Rank(all, |all|)
    ensures m.align in {0, 1, 2, 4, 8} ==> StepField(m, f).align in {0, 1, 2, 4, 8}
    ensures StepField(m, f).align >= m.align
  {
    hide CalculateOffset;
    RankPrefix(fields, [f], |fields|);
    assert (fields + [f])[|fields|] == f;
  }

  lemma OldTag(m: MsgState, fields: seq<Field>, f: Field, i: nat)
    requires m.run.st.link <= |m.run.st.holes| && |m.tags| == |fields| && i < |fields| && TagOK(m, fields, i)
    ensures TagOK(StepField(m, f), fields + [f], i)
  {
    hide CalculateOffset;
    RankPrefix(fields, [f], i);
  }

  lemma NewTag(m: MsgState, fields: seq<Field>, f: Field)
    requires m.run.st.link <= |m.run.st.holes| && |m.tags| == |fields| && ValidField(f)
    requires |m.run.placed| == Rank(fields, |fields|) && m.psize == |fields| - Rank(fields, |fields|)
    ensures TagOK(StepField(m, f), fields + [f], |fields|)
  {
    RankPrefix(fields, [f], |fields|);
    if f.Scalar? && f.size != 0 {
      ChosenAligned(m.run.st, f.size);
    }
    hide CalculateOffset;
  }

  /** The size of the scalar part once elements are padded to the alignment. */
  function FinalSize(ssize: nat, psize: nat, align: nat): (n: nat)
    ensures n >= ssize && (align > 0 ==> n < ssize + align)
    ensures align > 1 ==> (n + 4 * psize) % align == 0
  {
    if align > 1 then
      RoundUpProps(ssize + 4 * psize, align);
      RoundUp(ssize + 4 * psize, align) - 4 * psize
    else ssize
  }

  /** A compiled message type. */
  datatype MsgType = MsgType(fields: seq<Field>, tags: seq<nat>, ssize: nat, psize: nat)

  function CompileMsg(fields: seq<Field>, align: nat): (t: MsgType)
    requires ValidFields(fields) && align in {0, 1, 2, 4, 8}
    ensures |t.tags| == |fields| && t.fields == fields
  {
    var m := LayFields(fields, align);
    MsgType(fields, m.tags, FinalSize(m.run.st.ssize, m.psize, m.align), m.psize)
  }

  /** Compiling one message with the mutable allocator gives the same tags and sizes. */
  method OutMsg(a: Allocator, fields: seq<Field>, align: nat) returns (t: MsgType, align': nat)
    requires ValidFields(fields) && align in {0, 1, 2, 4, 8}
    requires CompileMsg(fields, align).ssize < U16
    modifies a
    ensures t == CompileMsg(fields, align) && align' == LayFields(fields, align).align
    ensures a.Valid() && a.St(0) == EMPTY
  {
    hide MsgInv, Inv, CalculateOffset, Place, LayFields;
    a.Clear();
    var ssize: nat, psize: nat, tags: seq<nat> := 0, 0, [];
    align' := align;
    Unrolled(fields, align);
    for n := 0 to |fields|
      invariant a.Valid() && ValidFields(fields[..n])
      invariant var m := LayFields(fields[..n], align);
                m.run.st == a.St(ssize) && m.psize == psize && m.tags == tags && m.align == align'
    {
      UnrolledOne(fields, n, align);
      var f := fields[n];
      if f.Scalar? {
        SizesGrow(fields, n + 1, align);
        PlaceState(LayFields(fields[..n], align).run, f.size);
        var offset;
        offset, ssize := a.CalculateOffset(ssize, f.size);
        tags := tags + [offset];
        if align' < f.size {
          align' := f.size;
        }
      } else {
        tags := tags + [psize];
        psize := psize + 1;
        if align' < 4 {
          align' := 4;
        }
      }
    }
    assert fields[..|fields|] == fields;
    t := MsgType(fields, tags, FinalSize(ssize, psize, align'), psize);
    a.Clear();
  }

  lemma Unrolled(fields: seq<Field>, align: nat)
    requires ValidFields(fields) && align in {0, 1, 2, 4, 8}
    ensures fields[..0] == [] && LayFields([], align) == MsgState(START, 0, [], align)
  {
  }

  lemma UnrolledOne(fields: seq<Field>, n: nat, align: nat)
    requires ValidFields(fields) && align in {0, 1, 2, 4, 8} && n < |fields|
    ensures ValidField(fields[n])
    ensures var m := LayFields(fields[..n], align);
            && m.run.st.link <= |m.run.st.holes|
            && (forall i :: 0 <= i < |m.run.st.holes| ==> m.run.st.holes[i].size > 0)
            && LayFields(fields[..n + 1], align) == StepField(m, fields[n])
  {
    hide StepField, Inv, Conserved;
    assert fields[..n + 1][..n] == fields[..n];
    var m := LayFields(fields[..n], align);
    LinkInside(m.run);
    HoleSizes(m.run);
  }

  lemma PlaceState(r: Run, size: nat)
    requires r.st.link <= |r.st.holes|
    ensures Place(r, size).st == Layout.CalculateOffset(r.st, size).1
  {
  }

  lemma HoleSizes(r: Run)
    requires Inv(r)
    ensures forall i :: 0 <= i < |r.st.holes| ==> r.st.holes[i].size > 0
  {
    BackedSizes(r.st.holes, r.placed, r.st.ssize);
  }

  /** The scalar part never shrinks from field to field. */
  lemma {:induction false} SizesGrow(fields: seq<Field>, n: nat, align: nat)
    requires ValidFields(fields) && align in {0, 1, 2, 4, 8} && n <= |fields|
    ensures ValidFields(fields[..n])
    ensures LayFields(fields[..n], align).run.st.ssize <= LayFields(fields, align).run.st.ssize
    decreases |fields|
  {
    hide StepField, Inv, Conserved, LayFields;
    if n == |fields| {
      assert fields[..n] == fields;
    } else {
      var shorter := fields[..|fields| - 1];
      assert shorter[..n] == fields[..n];
      SizesGrow(shorter, n, align);
      UnrolledOne(fields, |fields| - 1, align);
      assert fields[..|fields|] == fields;
      StepGrows(LayFields(shorter, align), fields[|fields| - 1]);
    }
  }

  lemma StepGrows(m: MsgState, f: Field)
    requires m.run.st.link <= |m.run.st.holes| && ValidField(f)
    ensures StepField(m, f).run.st.ssize >= m.run.st.ssize
  {
    if f.Scalar? && f.size != 0 {
      RoundUpSizes(m.run.st.ssize, f.size);
    }
  }
}
