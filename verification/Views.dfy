/** Messages as values: what a typed reader sees of a decoded tree, field by field (the readers of
    include/libnbuf.h).  An absent string reads as empty, an absent list as no elements. */
module Views {
  import opened Bytes
  import opened Wire
  import opened Schemas
  import opened Decode
  import opened Cells

  datatype Val =
    | VBool(b: bool)
    | VInt(v: int)
    | VStr(s: seq<byte>)
    | VMsg(m: Msg)

  /** The items of one field: exactly one for a scalar or a string, at most one for a message, any number
      for a list. */
  datatype Items = Items(s: seq<Val>)

  /** A message: the items of its fields, in the order of the fields. */
  type Msg = seq<Items>

  /** A scalar field, from the scalar part of its element. */
  function ScalarVal(f: FieldDesc, scalar: seq<byte>, tag: nat): Val {
    match f.kind
    case BOOL => VBool(GetBit(scalar, Alone(scalar), tag))
    case INT => VInt(GetInt(scalar, Alone(scalar), tag, f.tag1))
    case UINT => VInt(GetInt(scalar, Alone(scalar), tag, f.tag1) % Pow256(f.tag1))
    case _ => VInt(GetInt(scalar, Alone(scalar), tag, 2) % Pow256(2))
  }

  /** What a pointer slot leads to; slots beyond the pointer part read as null. */
  function Kid(el: Elem, i: nat): (t: Tree)
    ensures i < |el.kids| ==> t == el.kids[i]
  {
    if i < |el.kids| then el.kids[i] else Null
  }

  /** The characters of a string object, without its final NUL: the bytes behind its header, whatever its
      element size.  Objects with pointers are no strings. */
  function StrOf(t: Tree): seq<byte> {
    if t.Node? && 0 < t.nelem <= |t.raw| + 1 then t.raw[..t.nelem - 1] else []
  }

  function ViewMsg(S: Schema, mi: nat, el: Elem): (m: Msg)
    requires mi < |S.msgs|
    ensures |m| == |S.msgs[mi].fields|
    decreases el, 2
  {
    var fields := S.msgs[mi].fields;
    seq(|fields|, i requires 0 <= i < |fields| => ViewField(S, fields[i], el))
  }

  function ViewField(S: Schema, f: FieldDesc, el: Elem): Items
    decreases el, 1
  {
    if f.list || f.kind == PTR then
      if f.tag0 < |el.kids| then
        var items := ViewList(S, f, el.kids[f.tag0]);
        Items(if f.list || items == [] then items else items[..1])
      else Items([])
    else if f.kind == STR then Items([VStr(StrOf(Kid(el, f.tag0)))])
    else Items([ScalarVal(f, el.scalar, f.tag0)])
  }

  /** The elements of the object behind a list or message field; none behind a null pointer. */
  function ViewList(S: Schema, f: FieldDesc, t: Tree): seq<Val>
    decreases t, 1
  {
    if t.Node? then seq(|t.elems|, j requires 0 <= j < |t.elems| => ViewItem(S, f, t, j)) else []
  }

  /** One of these elements.  Bools are the bits behind the header. */
  function ViewItem(S: Schema, f: FieldDesc, t: Tree, j: nat): Val
    requires t.Node? && j < |t.elems|
    decreases t, 0
  {
    match f.kind
    case BOOL => VBool(j / 8 < |t.raw| && Bit(t.raw[j / 8], j % 8))
    case STR => VStr(StrOf(Kid(t.elems[j], 0)))
    case PTR => VMsg(if f.tag1 < |S.msgs| then ViewMsg(S, f.tag1, t.elems[j]) else [])
    case _ => ScalarVal(f, t.elems[j].scalar, 0)
  }

  // ---------------------------------------------------------------- values of a schema

  /** What an integer field of that kind and size can hold. */
  predicate InWidth(f: FieldDesc, v: int) {
    match f.kind
    case INT => 0 - Pow256(f.tag1) <= 2 * v < Pow256(f.tag1)
    case UINT => 0 <= v < Pow256(f.tag1)
    case _ => 0 <= v < 0x1_0000
  }

  predicate Typed(S: Schema, mi: nat, m: Msg)
    requires mi < |S.msgs|
    decreases m, 2
  {
    && |m| == |S.msgs[mi].fields|
    && (forall i :: 0 <= i < |m| ==> TypedField(S, S.msgs[mi].fields[i], m[i]))
  }

  predicate TypedField(S: Schema, f: FieldDesc, items: Items)
    decreases items, 1
  {
    && (!f.list && f.kind != PTR ==> |items.s| == 1)
    && (!f.list && f.kind == PTR ==> |items.s| <= 1)
    && (forall j :: 0 <= j < |items.s| ==> TypedItem(S, f, items.s[j]))
  }

  predicate TypedItem(S: Schema, f: FieldDesc, v: Val)
    decreases v, 0
  {
    match f.kind
    case BOOL => v.VBool?
    case STR => v.VStr?
    case PTR => v.VMsg? && f.tag1 < |S.msgs| && Typed(S, f.tag1, v.m)
    case _ => v.VInt? && InWidth(f, v.v)
  }

  lemma ScalarTyped(S: Schema, f: FieldDesc, scalar: seq<byte>, tag: nat)
    requires FieldOK(S, f) && f.kind != STR && f.kind != PTR
    ensures TypedItem(S, f, ScalarVal(f, scalar, tag))
  {
    Pow256Values();
    if f.kind != BOOL {
      var sz := ScalarWidth(f);
      var o := Alone(scalar);
      if tag + sz <= o.ssize {
        UnLEBound(scalar[o.base + tag..o.base + tag + sz]);
      }
    }
  }

  /** A typed reader of any tree whatsoever sees a well-typed message. */
  lemma {:induction false} ViewTyped(S: Schema, mi: nat, el: Elem)
    requires SchemaOK(S) && mi < |S.msgs|
    ensures Typed(S, mi, ViewMsg(S, mi, el))
    decreases el, 2
  {
    var d := S.msgs[mi];
    assert MsgOK(S, d);
    forall i | 0 <= i < |d.fields|
      ensures TypedField(S, d.fields[i], ViewField(S, d.fields[i], el))
    {
      ViewFieldTyped(S, d.fields[i], el);
    }
  }

  lemma {:induction false} ViewFieldTyped(S: Schema, f: FieldDesc, el: Elem)
    requires SchemaOK(S) && FieldOK(S, f)
    ensures TypedField(S, f, ViewField(S, f, el))
    decreases el, 1
  {
    hide SchemaOK, StrOf, ScalarVal, ViewList, TypedItem;
    if f.list || f.kind == PTR {
      if f.tag0 < |el.kids| {
        ViewListTyped(S, f, el.kids[f.tag0]);
      }
    } else if f.kind != STR {
      ScalarTyped(S, f, el.scalar, f.tag0);
    } else {
      assert TypedItem(S, f, VStr(StrOf(Kid(el, f.tag0)))) by { StrTyped(S, f, StrOf(Kid(el, f.tag0))); }
    }
  }

  lemma StrTyped(S: Schema, f: FieldDesc, s: seq<byte>)
    requires f.kind == STR
    ensures TypedItem(S, f, VStr(s))
  {
  }

  lemma {:induction false} ViewListTyped(S: Schema, f: FieldDesc, t: Tree)
    requires SchemaOK(S) && FieldOK(S, f)
    ensures forall j :: 0 <= j < |ViewList(S, f, t)| ==> TypedItem(S, f, ViewList(S, f, t)[j])
    decreases t, 1
  {
    hide SchemaOK, ViewItem, TypedItem;
    if t.Node? {
      forall j | 0 <= j < |t.elems|
        ensures TypedItem(S, f, ViewItem(S, f, t, j))
      {
        ViewItemTyped(S, f, t, j);
      }
    }
  }

  lemma {:induction false} ViewItemTyped(S: Schema, f: FieldDesc, t: Tree, j: nat)
    requires SchemaOK(S) && FieldOK(S, f) && t.Node? && j < |t.elems|
    ensures TypedItem(S, f, ViewItem(S, f, t, j))
    decreases t, 0
  {
    hide SchemaOK, StrOf, ScalarVal, InWidth;
    if f.kind == PTR {
      ViewTyped(S, f.tag1, t.elems[j]);
    } else if f.kind != BOOL && f.kind != STR {
      ScalarTyped(S, f, t.elems[j].scalar, 0);
    }
  }
}
