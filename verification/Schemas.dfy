/** Compiled schemas: the descriptions of message and enum types that the text formats consult at run
    time (lib/refl.c), and what the compiler's layout guarantees about them. */
module Schemas {
  import opened Bytes
  import opened Wire
  import opened Layout
  import opened Messages
  import A = Access

  /** The kinds of fields. */
  datatype Kind = BOOL | ENUM | INT | UINT | FLOAT | STR | PTR

  /** A field: tag0 is its bit or byte offset or its pointer index, tag1 the size of an integer or the
      index of an enum or message type. */
  datatype FieldDesc = FieldDesc(name: seq<byte>, kind: Kind, list: bool, tag0: nat, tag1: nat)

  datatype MsgDesc = MsgDesc(name: seq<byte>, fields: seq<FieldDesc>, ssize: nat, psize: nat)

  datatype EnumDesc = EnumDesc(name: seq<byte>, value: nat)

  datatype EnumType = EnumType(name: seq<byte>, values: seq<EnumDesc>)

  datatype Schema = Schema(pkg: seq<byte>, enums: seq<EnumType>, msgs: seq<MsgDesc>)

  // ---------------------------------------------------------------- look-up by name and by value

  datatype Option<T> = None | Some(value: T)

  /** The first field of that name. */
  function FindField(fields: seq<FieldDesc>, name: seq<byte>): (r: Option<nat>)
    ensures r.Some? ==> r.value < |fields| && fields[r.value].name == name
    ensures r.Some? ==> forall i :: 0 <= i < r.value ==> fields[i].name != name
    ensures r.None? ==> forall i :: 0 <= i < |fields| ==> fields[i].name != name
  {
    if fields == [] then None
    else if fields[0].name == name then Some(0)
    else
      var r := FindField(fields[1..], name);
      if r.Some? then Some(r.value + 1) else None
  }

  /** The name of an enum value, from its first entry. */
  function EnumName(values: seq<EnumDesc>, v: nat): (r: Option<seq<byte>>)
    ensures r.Some? ==> exists i :: 0 <= i < |values| && values[i] == EnumDesc(r.value, v)
    ensures r.None? ==> forall i :: 0 <= i < |values| ==> values[i].value != v
  {
    if values == [] then None
    else if values[0].value == v then Some(values[0].name)
    else EnumName(values[1..], v)
  }

  function EnumValue(values: seq<EnumDesc>, name: seq<byte>): (r: Option<nat>)
    ensures r.Some? ==> exists i :: 0 <= i < |values| && values[i] == EnumDesc(name, r.value)
    ensures r.None? ==> forall i :: 0 <= i < |values| ==> values[i].name != name
  {
    if values == [] then None
    else if values[0].name == name then Some(values[0].value)
    else EnumValue(values[1..], name)
  }

  // ---------------------------------------------------------------- sizes and placement

  /** The width of a scalar kind, 0 for a bool. */
  function ScalarWidth(f: FieldDesc): nat {
    match f.kind
    case BOOL => 0
    case ENUM => 2
    case _ => f.tag1
  }

  /** The field is reached through a pointer slot. */
  predicate IsPtr(f: FieldDesc) {
    f.list || f.kind == STR || f.kind == PTR
  }

  /** What the layout has to provide for a field. */
  function Need(f: FieldDesc): Field {
    if IsPtr(f) then Pointer else Scalar(ScalarWidth(f))
  }

  function Needs(fields: seq<FieldDesc>): seq<Field> {
    seq(|fields|, i requires 0 <= i < |fields| => Need(fields[i]))
  }

  /** Element sizes of the object behind a list or message field. */
  function ItemShape(S: Schema, f: FieldDesc): (nat, nat) {
    match f.kind
    case ENUM => (2, 0)
    case STR => (0, 1)
    case PTR => if f.tag1 < |S.msgs| then (S.msgs[f.tag1].ssize, S.msgs[f.tag1].psize) else (0, 0)
    case _ => (f.tag1, 0)
  }

  /** The tag fits the kind.  Floating point fields are laid out like integers, but reading and writing
      their values is not modelled, so schemas with such fields are left aside here. */
  predicate FieldOK(S: Schema, f: FieldDesc) {
    match f.kind
    case BOOL => f.tag1 == 0
    case ENUM => f.tag1 < |S.enums|
    case INT => f.tag1 in {1, 2, 4, 8}
    case UINT => f.tag1 in {1, 2, 4, 8}
    case FLOAT => false
    case STR => true
    case PTR => f.tag1 < |S.msgs|
  }

  /** Where a scalar field lies, in bits. */
  function BitSlot(f: FieldDesc): Slot {
    SlotOf(ScalarWidth(f), f.tag0)
  }

  predicate Apart(s: Slot, u: Slot) {
    s.start + s.len <= u.start || u.start + u.len <= s.start
  }

  /** The field lies inside the element, at a multiple of its size. */
  predicate Inside(d: MsgDesc, f: FieldDesc) {
    if IsPtr(f) then f.tag0 < d.psize
    else
      && BitSlot(f).start + BitSlot(f).len <= 8 * d.ssize
      && (ScalarWidth(f) > 0 ==> f.tag0 % ScalarWidth(f) == 0)
  }

  /** Fields lie inside the element and never share a bit or a pointer slot. */
  predicate LaidOut(d: MsgDesc) {
    && d.ssize < U16 && d.psize < U16
    && (d.psize > 0 ==> d.ssize % 4 == 0)
    && (forall i :: 0 <= i < |d.fields| ==> Inside(d, d.fields[i]))
    && (forall i, j :: 0 <= i < j < |d.fields| ==>
          && (IsPtr(d.fields[i]) && IsPtr(d.fields[j]) ==> d.fields[i].tag0 != d.fields[j].tag0)
          && (!IsPtr(d.fields[i]) && !IsPtr(d.fields[j]) ==> Apart(BitSlot(d.fields[i]), BitSlot(d.fields[j]))))
  }

  predicate MsgOK(S: Schema, d: MsgDesc) {
    LaidOut(d) && forall i :: 0 <= i < |d.fields| ==> FieldOK(S, d.fields[i])
  }

  predicate SchemaOK(S: Schema) {
    forall i :: 0 <= i < |S.msgs| ==> MsgOK(S, S.msgs[i])
  }

  /** The description carries the tags and sizes that the compiler computed. */
  ghost predicate Compiled(d: MsgDesc, align: nat) {
    && align in {0, 1, 2, 4, 8}
    && ValidFields(Needs(d.fields))
    && var t := CompileMsg(Needs(d.fields), align);
       && d.ssize == t.ssize && d.psize == t.psize
       && (forall i :: 0 <= i < |d.fields| ==> d.fields[i].tag0 == t.tags[i])
  }

  /** Whatever the compiler lays out is laid out without overlap. */
  lemma CompiledLaidOut(d: MsgDesc, align: nat)
    requires Compiled(d, align) && d.ssize < U16 && d.psize < U16
    ensures LaidOut(d)
  {
    hide CompileMsg, Apart, SlotOf, ValidFields;
    var fs := Needs(d.fields);
    forall i | 0 <= i < |d.fields|
      ensures Inside(d, d.fields[i])
    {
      CompiledField(d, align, i);
    }
    forall i, j | 0 <= i < j < |d.fields|
      ensures IsPtr(d.fields[i]) && IsPtr(d.fields[j]) ==> d.fields[i].tag0 != d.fields[j].tag0
      ensures !IsPtr(d.fields[i]) && !IsPtr(d.fields[j]) ==> Apart(BitSlot(d.fields[i]), BitSlot(d.fields[j]))
    {
      CompiledPair(d, align, i, j);
    }
    CompiledWord(d, align);
  }

  lemma CompiledField(d: MsgDesc, align: nat, i: nat)
    requires Compiled(d, align) && i < |d.fields|
    ensures Inside(d, d.fields[i])
  {
    hide CompileMsg, SlotOf, ValidFields, Inv, LayFields, FinalSize;
    var fs := Needs(d.fields);
    if IsPtr(d.fields[i]) {
      PointerInside(fs, align, i);
    } else {
      A.SlotInType(fs, align, i);
      A.TagFacts(fs, align, i);
    }
  }

  lemma PointerInside(fields: seq<Field>, align: nat, i: nat)
    requires ValidFields(fields) && align in {0, 1, 2, 4, 8} && i < |fields| && fields[i].Pointer?
    ensures CompileMsg(fields, align).tags[i] < CompileMsg(fields, align).psize
  {
    hide MsgInv, LayFields, Inv, FinalSize, CompileMsg, ValidFields;
    A.TagFacts(fields, align, i);
    RankMono(fields, i + 1, |fields|);
  }

  lemma CompiledPair(d: MsgDesc, align: nat, i: nat, j: nat)
    requires Compiled(d, align) && i < j < |d.fields|
    ensures IsPtr(d.fields[i]) && IsPtr(d.fields[j]) ==> d.fields[i].tag0 != d.fields[j].tag0
    ensures !IsPtr(d.fields[i]) && !IsPtr(d.fields[j]) ==> Apart(BitSlot(d.fields[i]), BitSlot(d.fields[j]))
  {
    hide CompileMsg, SlotOf, ValidFields;
    var fs := Needs(d.fields);
    if IsPtr(d.fields[i]) && IsPtr(d.fields[j]) {
      A.PointerTags(fs, align, i, j);
    } else if !IsPtr(d.fields[i]) && !IsPtr(d.fields[j]) {
      A.SlotsApart(fs, align, i, j);
    }
  }

  /** A message with pointers has a word-aligned scalar part. */
  lemma {:induction false} CompiledWord(d: MsgDesc, align: nat)
    requires Compiled(d, align)
    ensures d.psize > 0 ==> d.ssize % 4 == 0
  {
    hide CompileMsg, ValidFields, Inv, LayFields, FinalSize;
    var fs := Needs(d.fields);
    if d.psize > 0 {
      var i := SomePointer(fs, align);
      A.ElementStride(fs, align, i);
    }
  }

  lemma SomePointer(fields: seq<Field>, align: nat) returns (i: nat)
    requires ValidFields(fields) && align in {0, 1, 2, 4, 8} && CompileMsg(fields, align).psize > 0
    ensures i < |fields| && fields[i].Pointer?
  {
    hide MsgInv, Inv, Conserved, TagOK, FinalSize, ValidFields;
    assert CompileMsg(fields, align).psize == |fields| - Rank(fields, |fields|) by {
      assert MsgInv(LayFields(fields, align), fields, align);
      PsizeOf(LayFields(fields, align), fields, align);
    }
    i := FirstPointer(fields, |fields|);
  }

  lemma PsizeOf(m: MsgState, fields: seq<Field>, align: nat)
    requires MsgInv(m, fields, align)
    ensures m.psize == |fields| - Rank(fields, |fields|)
  {
  }

  lemma {:induction false} FirstPointer(fields: seq<Field>, n: nat) returns (i: nat)
    requires n <= |fields| && Rank(fields, n) < n
    ensures i < n && fields[i].Pointer?
  {
    if fields[n - 1].Pointer? {
      i := n - 1;
    } else {
      i := FirstPointer(fields, n - 1);
    }
  }
}
