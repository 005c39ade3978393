/** How far elements are padded (nbufc/t2b.c): the alignment that is carried from message to message, and
    the alignment that the specification asks for. */
module Padding {
  import opened Bytes
  import opened Wire
  import opened Layout
  import opened Messages

  function Max(a: nat, b: nat): nat {
    if a < b then b else a
  }

  function FieldAlign(f: Field): nat {
    if f.Scalar? then f.size else 4
  }

  /** The alignment that fields need. */
  function Widest(fields: seq<Field>): (a: nat)
    requires ValidFields(fields)
    ensures a in {0, 1, 2, 4, 8}
  {
    if fields == [] then 0
    else Max(Widest(fields[..|fields| - 1]), FieldAlign(fields[|fields| - 1]))
  }

  /** The alignment brought along changes nothing in the layout but the alignment that is left behind. */
  lemma {:induction false} AlignAside(fields: seq<Field>, align: nat)
    requires ValidFields(fields) && align in {0, 1, 2, 4, 8}
    ensures LayFields(fields, align) == LayFields(fields, 0).(align := Max(align, Widest(fields)))
    decreases |fields|
  {
    hide MsgInv, Inv, Conserved, LayFields, CalculateOffset, Place;
    if fields == [] {
      Unrolled(fields, align);
      Unrolled(fields, 0);
    } else {
      var n := |fields| - 1;
      AlignAside(fields[..n], align);
      AlignAside(fields[..n], 0);
      UnrolledOne(fields, n, align);
      UnrolledOne(fields, n, 0);
      assert fields[..n + 1] == fields;
    }
  }

  /** An element of these sizes is as long as the alignment asks for. */
  predicate Fills(size: nat, psize: nat, align: nat) {
    var s, p, a := size, psize, align;
    a <= 1 || (s + 4 * p) % a == 0
  }

  /** A coarser alignment yields the same size if and only if that size happens to suit it. */
  lemma CoarserIff(s: nat, p: nat, a: nat, b: nat)
    requires a in {0, 1, 2, 4, 8} && b in {0, 1, 2, 4, 8} && a <= b
    ensures FinalSize(s, p, a) <= FinalSize(s, p, b)
    ensures FinalSize(s, p, a) == FinalSize(s, p, b) <==> Fills(FinalSize(s, p, a), p, b)
  {
    var m, n := FinalSize(s, p, a), FinalSize(s, p, b);
    assert (a <= 1 ==> m == s) && (b <= 1 ==> n == s) && (m + 4 * p) % 1 == 0;
    hide FinalSize;
    if a > 1 {
      FirstMultiple(s + 4 * p, a, b, m + 4 * p, n + 4 * p);
    } else if b > 1 {
      FirstMultiple(s + 4 * p, 1, b, m + 4 * p, n + 4 * p);
    }
  }

  lemma FirstMultiple(x: nat, a: nat, b: nat, m: nat, n: nat)
    requires a in {1, 2, 4, 8} && b in {2, 4, 8} && a <= b
    requires x <= m < x + a && m % a == 0 && x <= n < x + b && n % b == 0
    ensures m <= n && (m == n <==> m % b == 0)
  {
    MultipleOf(n, a, b);
    Above(n, m, a);
    if m % b == 0 {
      Above(m, n, b);
    }
  }

  lemma MultipleOf(n: nat, a: nat, b: nat)
    requires a in {1, 2, 4, 8} && b in {2, 4, 8} && a <= b && n % b == 0
    ensures n % a == 0
  {
    var q, c := n / b, b / a;
    assert b == c * a && n == q * b;
    hide *;
    assert n == q * (c * a) == (q * c) * a;
    ModUnique(n, a, q * c, 0);
  }

  /** A multiple that is not below another by as much as a is not below it. */
  lemma Above(u: nat, v: nat, a: nat)
    requires a > 0 && u % a == 0 && v % a == 0 && v < u + a
    ensures v <= u
  {
    var i, j := u / a, v / a;
    assert u == i * a && v == j * a;
    hide *;
    if i != j {
      StrideApart(i, j, a);
    }
  }

  /** Elements of a message are as long as if it stood alone if and only if that length is a multiple of
      the alignment brought along; otherwise they are longer.  Nothing else depends on it. */
  lemma {:induction false} CarriedIff(fields: seq<Field>, align: nat)
    requires ValidFields(fields) && align in {0, 1, 2, 4, 8}
    ensures var t, alone := CompileMsg(fields, align), CompileMsg(fields, 0);
            && t == alone.(ssize := t.ssize) && alone.ssize <= t.ssize
            && (t.ssize == alone.ssize <==> Fills(alone.ssize, alone.psize, align))
  {
    hide LayFields, FinalSize, Fills;
    AlignAside(fields, align);
    AlignAside(fields, 0);
    var m := LayFields(fields, 0);
    CoarserIff(m.run.st.ssize, m.psize, Widest(fields), Max(align, Widest(fields)));
    if align <= Widest(fields) {
      FinerDivides(m.run.st.ssize, m.psize, align, Widest(fields));
    }
  }

  lemma FinerDivides(s: nat, p: nat, a: nat, b: nat)
    requires a in {0, 1, 2, 4, 8} && b in {0, 1, 2, 4, 8} && a <= b
    ensures Fills(FinalSize(s, p, b), p, a)
  {
    var n := FinalSize(s, p, b);
    hide FinalSize;
    if a > 1 {
      MultipleOf(n + 4 * p, a, b);
    }
  }

  /** `message A { x: int64 }` in front of `message B { y: int8 }` makes every B seven bytes longer. */
  lemma CarriedPads(a: seq<Field>, b: seq<Field>)
    requires |a| == |b| == 1 && a[0] == Scalar(8) && b[0] == Scalar(1)
    ensures ValidFields(a) && ValidFields(b)
    ensures LayFields(a, 0).align == 8 && CompileMsg(b, 8).ssize == 8 && CompileMsg(b, 0).ssize == 1
  {
    hide LayFields, ValidFields;
    OneScalar(a, 8, 0);
    OneScalar(b, 1, 8);
    OneScalar(b, 1, 0);
  }

  lemma OneScalar(fields: seq<Field>, size: nat, align: nat)
    requires size in {1, 2, 4, 8} && align in {0, 1, 2, 4, 8} && |fields| == 1 && fields[0] == Scalar(size)
    ensures ValidFields(fields)
    ensures var m := LayFields(fields, align);
            m.run.st.ssize == size && m.psize == 0 && m.align == Max(align, size)
  {
    hide MsgInv, Inv, Conserved, LayFields, StepField;
    assert fields[..0] == [] && fields[..1] == fields;
    Unrolled(fields, align);
    UnrolledOne(fields, 0, align);
    FirstScalar(MsgState(START, 0, [], align), size);
  }

  lemma FirstScalar(m: MsgState, size: nat)
    requires m.run.st.holes == [] && m.run.st.link == 0 && m.run.st.ssize == 0 && size in {1, 2, 4, 8}
    ensures var n := StepField(m, Scalar(size));
            n.run.st.ssize == size && n.psize == m.psize && n.align == Max(m.align, size)
  {
    ModUnique(0, size, 0, 0);
  }

  // ---------------------------------------------------------------- the specification's alignment

  /** The size of the largest scalar. */
  function ScalarAlign(fields: seq<Field>): (a: nat)
    requires ValidFields(fields)
    ensures a in {0, 1, 2, 4, 8}
  {
    if fields == [] then 0
    else
      var a, f := ScalarAlign(fields[..|fields| - 1]), fields[|fields| - 1];
      if f.Scalar? then Max(a, f.size) else a
  }

  /** The alignment in the words of the specification: never more than 4 where there are pointers. */
  function SpecAlign(fields: seq<Field>): (a: nat)
    requires ValidFields(fields)
  {
    var a := ScalarAlign(fields);
    if (forall i :: 0 <= i < |fields| ==> fields[i].Scalar?) || a < 4 then a else 4
  }

  /** The size of the scalar part that the specification asks for. */
  function SpecSize(fields: seq<Field>): nat
    requires ValidFields(fields)
  {
    var m := LayFields(fields, 0);
    FinalSize(m.run.st.ssize, m.psize, SpecAlign(fields))
  }

  /** What the compiler takes instead: at least 4 where there are pointers. */
  lemma {:induction false} WidestIs(fields: seq<Field>)
    requires ValidFields(fields)
    ensures Widest(fields)
         == if forall i :: 0 <= i < |fields| ==> fields[i].Scalar? then ScalarAlign(fields)
            else Max(4, ScalarAlign(fields))
    decreases |fields|
  {
    if fields != [] {
      var n := |fields| - 1;
      WidestIs(fields[..n]);
      if (forall i :: 0 <= i < n ==> fields[..n][i].Scalar?) && fields[n].Scalar? {
        assert forall i :: 0 <= i < |fields| ==> i == n || fields[i] == fields[..n][i];
      }
    }
  }

  /** The compiled size is the specified one if and only if that already suits the alignment that the
      compiler takes: the largest one brought along, of a scalar, and of a pointer if there is one. */
  lemma {:induction false} SpecSizeIff(fields: seq<Field>, align: nat)
    requires ValidFields(fields) && align in {0, 1, 2, 4, 8}
    ensures var t, a := CompileMsg(fields, align), Max(align, Widest(fields));
            && SpecSize(fields) <= t.ssize
            && (t.ssize == SpecSize(fields) <==> Fills(SpecSize(fields), t.psize, a))
  {
    hide LayFields, FinalSize, ScalarAlign, Widest, Fills;
    AlignAside(fields, align);
    WidestIs(fields);
    var m := LayFields(fields, 0);
    CoarserIff(m.run.st.ssize, m.psize, SpecAlign(fields), Max(align, Widest(fields)));
  }

  /** A string and an int8: the specification asks for one scalar byte, the compiler makes it four, and
      pointers of adjacent elements could not both be aligned otherwise. */
  lemma SpecMisaligns(fields: seq<Field>)
    requires fields == [Pointer, Scalar(1)]
    ensures SpecSize(fields) == 1 && CompileMsg(fields, 0).ssize == 4 && CompileMsg(fields, 0).psize == 1
  {
    hide MsgInv, Inv, Conserved, LayFields, StepField;
    assert fields[..0] == [] && fields[..1] == [Pointer] && fields[..2] == fields;
    Unrolled(fields, 0);
    UnrolledOne(fields, 0, 0);
    UnrolledOne(fields, 1, 0);
    FirstPointer(MsgState(START, 0, [], 0));
    FirstScalar(LayFields(fields[..1], 0), 1);
    assert ScalarAlign(fields[..0]) == 0 && ScalarAlign(fields[..1]) == 0;
    assert fields[0].Pointer?;
  }

  lemma FirstPointer(m: MsgState)
    requires m.run.st.link <= |m.run.st.holes|
    ensures StepField(m, Pointer) == m.(psize := m.psize + 1, tags := m.tags + [m.psize], align := Max(m.align, 4))
  {
  }
}
