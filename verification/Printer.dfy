/** The printer as a program (lib/print.c): it walks a serialized message and appends text.  What it writes
    is the text of the message that a typed reader sees. */
module Printer {
  import opened Bytes
  import opened Wire
  import opened Decode
  import opened Schemas
  import opened Views
  import L = Lexer
  import Tokens
  import T = Texts
  import R = Reflection
  import C = Cells

  // ---------------------------------------------------------------- messages that can be printed

  /** An object that can be read as a string, or none. */
  predicate StringOK(t: Tree) {
    t.Null? || (t.Node? && t.psize == 0 && t.nelem <= |t.raw| + 1)
  }

  /** The objects behind strings and lists of bools hold no pointers, and reading went all the way down. */
  predicate Printable(S: Schema, mi: nat, el: Elem)
    requires mi < |S.msgs|
    decreases el, 2
  {
    forall i :: 0 <= i < |S.msgs[mi].fields| ==> PrintableField(S, S.msgs[mi].fields[i], el)
  }

  predicate PrintableField(S: Schema, f: FieldDesc, el: Elem)
    decreases el, 1
  {
    f.tag0 < |el.kids| ==>
      && (f.kind == STR && !f.list ==> StringOK(el.kids[f.tag0]))
      && (f.list || f.kind == PTR ==> PrintableList(S, f, el.kids[f.tag0]))
  }

  predicate PrintableList(S: Schema, f: FieldDesc, t: Tree)
    decreases t, 1
  {
    && !t.Cut?
    && (t.Node? ==>
          && (f.kind == BOOL ==> t.psize == 0)
          && (forall j :: 0 <= j < |t.elems| ==> PrintableItem(S, f, t.elems[j])))
  }

  predicate PrintableItem(S: Schema, f: FieldDesc, el: Elem)
    decreases el, 3
  {
    && (f.kind == STR ==> StringOK(Kid(el, 0)))
    && (f.kind == PTR && f.tag1 < |S.msgs| ==> Printable(S, f.tag1, el))
  }

  // ---------------------------------------------------------------- reading through handles

  /** What a handle shows. */
  function Shown(buf: seq<byte>, r: Obj, depth: nat): (el: Elem)
    requires Readable(buf, r) && depth > 0
    ensures |el.kids| == r.psize
  {
    Elem(buf[r.base..r.base + r.ssize],
         seq(r.psize, i requires 0 <= i < r.psize =>
           PtrAccepted(buf, r, i);
           DecodeFlat(buf, GetPtr(buf, r, i), depth - 1)))
  }

  /** The number of elements behind a handle does not matter for its first one. */
  lemma SameShown(buf: seq<byte>, r: Obj, q: Obj, depth: nat)
    requires Readable(buf, r) && depth > 0 && q == r.(nelem := q.nelem)
    ensures Readable(buf, q) && Shown(buf, q, depth) == Shown(buf, r, depth)
  {
    hide ObjInit, DecodeFlat;
    forall i: nat
      ensures GetPtr(buf, q, i) == GetPtr(buf, r, i)
    {
    }
  }

  lemma ElemShown(buf: seq<byte>, o: Obj, j: nat, depth: nat)
    requires Accepted(|buf|, o) && j < o.nelem && depth > 0
    ensures Readable(buf, ElemHandle(o, j)) && Shown(buf, ElemHandle(o, j), depth) == DecodeFlatElem(buf, o, j, depth)
  {
    hide Accepted, GetPtr, DecodeFlat, ElemSize;
    ElemReadable(|buf|, o, j);
  }

  /** What the printer reads as the value of an item, from a handle and an offset or index. */
  function ItemShown(S: Schema, f: FieldDesc, buf: seq<byte>, r: Obj, tag: nat, depth: nat): Val
    requires Readable(buf, r) && depth > 0
  {
    match f.kind
    case BOOL => VBool(GetBit(buf, r, tag))
    case INT => VInt(GetInt(buf, r, tag, f.tag1))
    case UINT => VInt(GetInt(buf, r, tag, f.tag1) % Pow256(f.tag1))
    case STR => VStr(StrOf(Kid(Shown(buf, r, depth), tag)))
    case PTR => VMsg(if f.tag1 < |S.msgs| then ViewMsg(S, f.tag1, Shown(buf, r, depth)) else [])
    case _ => VInt(GetInt(buf, r, tag, 2) % Pow256(2))
  }

  lemma ReadAlone(b: seq<byte>, r: Obj, sc: seq<byte>, size: nat, tag: nat)
    requires Readable(b, r) && sc == b[r.base..r.base + r.ssize]
    ensures GetBit(b, r, tag) == GetBit(sc, C.Alone(sc), tag)
    ensures GetInt(b, r, tag, size) == GetInt(sc, C.Alone(sc), tag, size)
  {
    if tag + size <= r.ssize {
      SliceOfSlice(b, r.base, r.ssize, tag, tag + size);
    }
  }

  lemma ScalarShown(S: Schema, f: FieldDesc, buf: seq<byte>, r: Obj, tag: nat, depth: nat)
    requires Readable(buf, r) && depth > 0 && f.kind != STR && f.kind != PTR && FieldOK(S, f)
    ensures ItemShown(S, f, buf, r, tag, depth) == ScalarVal(f, buf[r.base..r.base + r.ssize], tag)
  {
    hide GetInt, GetBit;
    ReadAlone(buf, r, buf[r.base..r.base + r.ssize], ScalarWidth(f), tag);
  }

  /** A field of its own shows one item. */
  lemma OwnShown(S: Schema, f: FieldDesc, buf: seq<byte>, o: Obj, depth: nat)
    requires Readable(buf, o) && depth > 0 && !f.list && f.kind != PTR && FieldOK(S, f)
    ensures ViewField(S, f, Shown(buf, o, depth)) == Items([ItemShown(S, f, buf, o, f.tag0, depth)])
  {
    hide ScalarVal, StrOf, Readable;
    if f.kind != STR {
      ScalarShown(S, f, buf, o, f.tag0, depth);
    }
  }

  /** The handle and offset of item j of an object. */
  predicate At(f: FieldDesc, o: Obj, j: nat, r: Obj, tag: nat) {
    && r.nelem + j == o.nelem && r.psize == o.psize
    && (f.kind == BOOL ==> r.base == o.base + j / 8 && r.ssize == 1 && tag == j % 8)
    && (f.kind != BOOL ==> r.base == o.base + j * ElemSize(o) && r.ssize == o.ssize && tag == 0)
  }

  /** Item j of an object is what its handle shows. */
  lemma ListShown(S: Schema, f: FieldDesc, buf: seq<byte>, o: Obj, j: nat, r: Obj, tag: nat, depth: nat)
    requires Accepted(|buf|, o) && j < o.nelem && depth > 0 && FieldOK(S, f) && At(f, o, j, r, tag)
    requires f.kind == BOOL ==> o.psize == 0
    ensures Readable(buf, r) && DecodeFlat(buf, o, depth).Node? && |DecodeFlat(buf, o, depth).elems| == o.nelem
    ensures ItemShown(S, f, buf, r, tag, depth) == ViewItem(S, f, DecodeFlat(buf, o, depth), j)
    ensures f.kind != BOOL ==> Shown(buf, r, depth) == DecodeFlat(buf, o, depth).elems[j]
  {
    hide Accepted, DecodeFlatElem, GetInt, ScalarVal, StrOf, Shown, ViewMsg;
    if f.kind == BOOL {
      BitShown(S, f, buf, o, j, r, tag, depth);
    } else {
      ElemShown(buf, o, j, depth);
      SameShown(buf, ElemHandle(o, j), r, depth);
      ElemParts(buf, r, depth);
      if f.kind != STR && f.kind != PTR {
        ScalarShown(S, f, buf, r, tag, depth);
      }
    }
  }

  lemma ElemParts(buf: seq<byte>, r: Obj, depth: nat)
    requires Readable(buf, r) && depth > 0
    ensures Shown(buf, r, depth).scalar == buf[r.base..r.base + r.ssize]
  {
  }

  lemma BitShown(S: Schema, f: FieldDesc, buf: seq<byte>, o: Obj, j: nat, r: Obj, tag: nat, depth: nat)
    requires Accepted(|buf|, o) && j < o.nelem && depth > 0 && f.kind == BOOL && At(f, o, j, r, tag) && o.psize == 0
    ensures Readable(buf, r) && DecodeFlat(buf, o, depth).Node? && |DecodeFlat(buf, o, depth).elems| == o.nelem
    ensures ItemShown(S, f, buf, r, tag, depth) == ViewItem(S, f, DecodeFlat(buf, o, depth), j)
  {
    hide Bit, PayloadSize, DecodeFlatElem;
    RawBytes(o, j);
    var raw := PayloadRaw(buf, o);
    assert raw == buf[o.base..o.base + PayloadSize(o)];
    assert raw[j / 8] == buf[r.base];
  }

  lemma RawBytes(o: Obj, j: nat)
    requires j < o.nelem && o.psize == 0 && (ElemSize(o) == 0 ==> o.nelem + 7 < U32)
    ensures j / 8 < PayloadSize(o)
  {
    if ElemSize(o) == 0 {
      ModUnique(o.nelem + 7, U32, 0, o.nelem + 7);
    } else {
      MulMono(1, ElemSize(o), o.nelem);
    }
  }

  /** The string behind a slot. */
  lemma StringShown(buf: seq<byte>, r: Obj, tag: nat, depth: nat)
    requires Readable(buf, r) && depth > 0 && StringOK(Kid(Shown(buf, r, depth), tag))
    ensures var o := GetPtr(buf, r, tag);
            && (o.nelem > 0 ==> o.base + o.nelem - 1 <= |buf|)
            && StrOf(Kid(Shown(buf, r, depth), tag))
               == if o.nelem > 0 then buf[o.base..o.base + o.nelem - 1] else []
  {
    hide ObjInit, PayloadSize, Accepted, DecodeFlatElem;
    var o := GetPtr(buf, r, tag);
    PtrAccepted(buf, r, tag);
    if tag < r.psize {
      StringBytes(buf, o, depth - 1);
    }
  }

  lemma StringBytes(buf: seq<byte>, o: Obj, depth: nat)
    requires Accepted(|buf|, o) && StringOK(DecodeFlat(buf, o, depth))
    ensures o.nelem > 0 ==> o.base + o.nelem - 1 <= |buf|
    ensures StrOf(DecodeFlat(buf, o, depth)) == if o.nelem > 0 then buf[o.base..o.base + o.nelem - 1] else []
  {
    hide PayloadSize, DecodeFlatElem;
    var t := DecodeFlat(buf, o, depth);
    if t.Node? && o.nelem > 0 {
      assert t.raw == buf[o.base..o.base + PayloadSize(o)];
    }
  }

  // ---------------------------------------------------------------- the printer

  class Printer {
    const S: Schema
    /** Added to the indentation of nested messages; if it is negative, everything goes on one line. */
    const inc: int
    var indent: int
    var out: seq<byte>

    constructor (S: Schema, inc: int)
      ensures this.S == S && this.inc == inc && indent == 0 && out == []
    {
      this.S := S;
      this.inc := inc;
      indent := 0;
      out := [];
    }

    method DoIndent(n: int)
      modifies this`out
      ensures out == old(out) + T.Spaces(n)
    {
      if n <= 0 {
        return;
      }
      var i := 0;
      while i < n
        invariant 0 <= i <= n && out == old(out) + T.Spaces(n)[..i]
      {
        assert T.Spaces(n)[..i + 1] == T.Spaces(n)[..i] + [L.SPACE];
        out := out + [L.SPACE];
        i := i + 1;
      }
      assert T.Spaces(n)[..n] == T.Spaces(n);
    }

    /** A string literal. */
    method DumpStr(s: seq<byte>)
      modifies this`out
      ensures out == old(out) + Tokens.Dump(s)
    {
      hide Tokens.EscapeByte;
      out := out + [L.QUOTE];
      var i := 0;
      assert s[0..] == s;
      while i < |s|
        invariant i <= |s|
        invariant out + Tokens.EscapeAll(s[i..]) == old(out) + ([L.QUOTE] + Tokens.EscapeAll(s))
      {
        assert s[i..][1..] == s[i + 1..];
        out := out + Tokens.EscapeByte(s[i]);
        i := i + 1;
      }
      assert out + [] == out;
      out := out + [L.QUOTE];
    }

    /** All fields of the message that a handle shows. */
    method DoPrint(buf: seq<byte>, o: Obj, mi: nat, depth: nat)
      requires SchemaOK(S) && mi < |S.msgs| && Readable(buf, o) && depth > 0
      requires Printable(S, mi, Shown(buf, o, depth))
      modifies this`out, this`indent
      ensures indent == old(indent)
      ensures out == old(out)
                     + T.TextFrom(S, S.msgs[mi].fields, ViewMsg(S, mi, Shown(buf, o, depth)), 0, old(indent), inc)
      decreases depth, 3
    {
      hide SchemaOK, Readable, T.TextItems, ViewField, PrintableField, Shown;
      var fields := S.msgs[mi].fields;
      ghost var m := ViewMsg(S, mi, Shown(buf, o, depth));
      ghost var ind := indent;
      var i := 0;
      assert out + T.TextFrom(S, fields, m, 0, ind, inc) == old(out) + T.TextFrom(S, fields, m, 0, ind, inc);
      while i < |fields|
        invariant i <= |fields| == |m| && indent == ind
        invariant out + T.TextFrom(S, fields, m, i, ind, inc) == old(out) + T.TextFrom(S, fields, m, 0, ind, inc)
      {
        ghost var before := out;
        FieldAt(S, mi, i);
        PrintField(buf, o, fields[i], depth);
        Append(before, T.TextItems(S, fields[i], m[i].s, 0, ind, inc), T.TextFrom(S, fields, m, i + 1, ind, inc));
        i := i + 1;
      }
      assert out + [] == out;
    }

    /** All items of one field. */
    method PrintField(buf: seq<byte>, o: Obj, f: FieldDesc, depth: nat)
      requires SchemaOK(S) && FieldOK(S, f) && Readable(buf, o) && depth > 0
      requires PrintableField(S, f, Shown(buf, o, depth))
      modifies this`out, this`indent
      ensures indent == old(indent)
      ensures out == old(out) + T.TextItems(S, f, ViewField(S, f, Shown(buf, o, depth)).s, 0, old(indent), inc)
      decreases depth, 2
    {
      hide SchemaOK, FieldOK, Readable, T.TextItem, PrintableItem, StringOK, ItemShown, Accepted, ObjInit, ViewItem;
      if f.list || f.kind == PTR {
        var r := GetPtr(buf, o, f.tag0);
        PtrAccepted(buf, o, f.tag0);
        if r.nelem == 0 {
          NothingShown(S, f, buf, o, depth);
          assert out + [] == out;
          return;
        }
        KidShown(S, f, buf, o, depth);
        PrintList(buf, r, f, depth - 1);
      } else {
        OwnShown(S, f, buf, o, depth);
        ghost var v := ItemShown(S, f, buf, o, f.tag0, depth);
        OwnPrintable(S, f, buf, o, depth);
        PrintItem(buf, o, f, f.tag0, depth);
        OneItem(S, f, v, indent, inc);
      }
    }

    /** The items behind a list or message field: all of a list, the first of a message. */
    method PrintList(buf: seq<byte>, o: Obj, f: FieldDesc, depth: nat)
      requires SchemaOK(S) && FieldOK(S, f) && Accepted(|buf|, o) && o.nelem > 0 && depth > 0
      requires PrintableList(S, f, DecodeFlat(buf, o, depth))
      modifies this`out, this`indent
      ensures indent == old(indent)
      ensures var vs := ViewList(S, f, DecodeFlat(buf, o, depth));
              && vs != []
              && out == old(out) + T.TextItems(S, f, if f.list then vs else vs[..1], 0, old(indent), inc)
      decreases depth, 6
    {
      hide SchemaOK, FieldOK, Readable, T.TextItem, PrintableItem, ItemShown, Accepted, ViewItem, Shown, DecodeFlatElem;
      var r, tag := o, 0;
      if f.kind == BOOL {
        r := r.(ssize := 1);
      }
      ListStarts(f, o, r);
      ghost var vs := ViewList(S, f, DecodeFlat(buf, o, depth));
      ghost var shown := if f.list then vs else vs[..1];
      ghost var ind := indent;
      ghost var j := 0;
      var more := true;
      while more
        invariant 0 <= j <= |shown| <= |vs| == o.nelem && indent == ind
        invariant more ==> j < |shown| && At(f, o, j, r, tag)
        invariant !more ==> j == |shown|
        invariant out + T.TextItems(S, f, shown, j, ind, inc) == old(out) + T.TextItems(S, f, shown, 0, ind, inc)
        decreases |shown| - j, more
      {
        ghost var before := out;
        ListShown(S, f, buf, o, j, r, tag, depth);
        ItemPrintable(S, f, buf, o, j, r, tag, depth);
        PrintItem(buf, r, f, tag, depth);
        Append(before, T.TextItem(S, f, shown[j], ind, inc), T.TextItems(S, f, shown, j + 1, ind, inc));
        j := j + 1;
        more := false;
        if f.list {
          r, tag, more := Advance(r, f, tag, o, j - 1);
        }
      }
      assert out + [] == out;
    }

    /** Moves a reference to the next element, if there is one. */
    method Advance(r: Obj, f: FieldDesc, tag: nat, ghost o: Obj, ghost j: nat) returns (r': Obj, tag': nat, more: bool)
      requires At(f, o, j, r, tag) && j < o.nelem && f.list
      ensures more <==> j + 1 < o.nelem
      ensures more ==> At(f, o, j + 1, r', tag')
    {
      if r.nelem <= 1 {
        return r, tag, false;
      }
      more := true;
      if f.kind == BOOL {
        var m := tag + 1;
        r', tag' := r.(nelem := r.nelem - 1, base := r.base + m / 8), m % 8;
      } else {
        assert ElemSize(r) == ElemSize(o);
        assert (j + 1) * ElemSize(o) == j * ElemSize(o) + ElemSize(o);
        r', tag' := r.(nelem := r.nelem - 1, base := r.base + ElemSize(r)), tag;
      }
    }

    /** One item: indentation, name, value, line break. */
    method PrintItem(buf: seq<byte>, r: Obj, f: FieldDesc, tag: nat, depth: nat)
      requires SchemaOK(S) && FieldOK(S, f) && Readable(buf, r) && depth > 0
      requires f.kind == STR ==> StringOK(Kid(Shown(buf, r, depth), tag))
      requires f.kind == PTR ==> Printable(S, f.tag1, Shown(buf, r, depth))
      modifies this`out, this`indent
      ensures indent == old(indent)
      ensures out == old(out) + T.TextItem(S, f, ItemShown(S, f, buf, r, tag, depth), old(indent), inc)
      decreases depth, if f.kind == PTR then 5 else 1
    {
      hide SchemaOK, Readable, ItemShown, T.TextVal, Printable, StringOK;
      DoIndent(indent);
      out := out + f.name;
      out := out + (if f.kind == PTR then [L.SPACE] else [L.COLON, L.SPACE]);
      PrintValue(buf, r, f, tag, depth);
      out := out + [T.Break(inc)];
    }

    method PrintValue(buf: seq<byte>, r: Obj, f: FieldDesc, tag: nat, depth: nat)
      requires SchemaOK(S) && FieldOK(S, f) && Readable(buf, r) && depth > 0
      requires f.kind == STR ==> StringOK(Kid(Shown(buf, r, depth), tag))
      requires f.kind == PTR ==> Printable(S, f.tag1, Shown(buf, r, depth))
      modifies this`out, this`indent
      ensures indent == old(indent)
      ensures out == old(out) + T.TextVal(S, f, ItemShown(S, f, buf, r, tag, depth), old(indent), inc)
      decreases depth, if f.kind == PTR then 4 else 0
    {
      hide SchemaOK, Readable, GetBit, GetInt, StrOf, Shown, Printable, StringOK, ViewMsg, T.TextFrom, ObjInit;
      if f.kind == BOOL {
        out := out + (if GetBit(buf, r, tag) then T.TRUE else T.FALSE);
      } else if f.kind == INT {
        out := out + Tokens.DecInt(GetInt(buf, r, tag, f.tag1));
      } else if f.kind == UINT {
        out := out + Tokens.DecInt(GetInt(buf, r, tag, f.tag1) % Pow256(f.tag1));
      } else if f.kind == STR {
        var o := GetPtr(buf, r, tag);
        StringShown(buf, r, tag, depth);
        DumpStr(if o.nelem > 0 then buf[o.base..o.base + o.nelem - 1] else []);
      } else if f.kind == ENUM {
        var val := GetInt(buf, r, tag, 2) % Pow256(2);
        var name := R.EnumName(S.enums[f.tag1].values, val);
        if name.Some? {
          out := out + name.value;
        } else {
          out := out + Tokens.DecInt(val);
        }
      } else {
        out := out + [L.OPEN, T.Break(inc)];
        indent := indent + inc;
        DoPrint(buf, r, f.tag1, depth);
        indent := indent - inc;
        DoIndent(indent);
        out := out + [L.CLOSE];
      }
    }
  }

  lemma Append(before: seq<byte>, x: seq<byte>, y: seq<byte>)
    ensures (before + x) + y == before + (x + y)
  {
  }

  lemma FieldAt(S: Schema, mi: nat, i: nat)
    requires SchemaOK(S) && mi < |S.msgs| && i < |S.msgs[mi].fields|
    ensures FieldOK(S, S.msgs[mi].fields[i])
  {
    assert MsgOK(S, S.msgs[mi]);
  }

  lemma OneItem(S: Schema, f: FieldDesc, v: Val, ind: int, inc: int)
    ensures T.TextItems(S, f, [v], 0, ind, inc) == T.TextItem(S, f, v, ind, inc)
  {
    hide T.TextItem;
    assert T.TextItems(S, f, [v], 1, ind, inc) == [];
  }

  lemma ListStarts(f: FieldDesc, o: Obj, r: Obj)
    requires r == if f.kind == BOOL then o.(ssize := 1) else o
    ensures At(f, o, 0, r, 0)
  {
  }

  lemma OwnPrintable(S: Schema, f: FieldDesc, buf: seq<byte>, o: Obj, depth: nat)
    requires Readable(buf, o) && depth > 0 && PrintableField(S, f, Shown(buf, o, depth)) && !f.list
    ensures f.kind == STR ==> StringOK(Kid(Shown(buf, o, depth), f.tag0))
  {
    hide Readable, Shown;
  }

  /** A field without an object, or with an empty one, shows no items. */
  lemma NothingShown(S: Schema, f: FieldDesc, buf: seq<byte>, o: Obj, depth: nat)
    requires Readable(buf, o) && depth > 0 && (f.list || f.kind == PTR) && GetPtr(buf, o, f.tag0).nelem == 0
    ensures ViewField(S, f, Shown(buf, o, depth)) == Items([])
  {
    hide ObjInit, Accepted, ViewItem;
    PtrAccepted(buf, o, f.tag0);
  }

  lemma KidShown(S: Schema, f: FieldDesc, buf: seq<byte>, o: Obj, depth: nat)
    requires Readable(buf, o) && depth > 0 && (f.list || f.kind == PTR) && GetPtr(buf, o, f.tag0).nelem > 0
    requires PrintableField(S, f, Shown(buf, o, depth))
    ensures depth > 1 && Accepted(|buf|, GetPtr(buf, o, f.tag0))
    ensures var t := DecodeFlat(buf, GetPtr(buf, o, f.tag0), depth - 1);
            && PrintableList(S, f, t)
            && var vs := ViewList(S, f, t);
               ViewField(S, f, Shown(buf, o, depth)) == Items(if f.list || vs == [] then vs else vs[..1])
  {
    hide ObjInit, Accepted, ViewItem, DecodeFlatElem, PrintableItem;
    PtrAccepted(buf, o, f.tag0);
  }

  lemma ItemPrintable(S: Schema, f: FieldDesc, buf: seq<byte>, o: Obj, j: nat, r: Obj, tag: nat, depth: nat)
    requires Accepted(|buf|, o) && j < o.nelem && depth > 0 && FieldOK(S, f) && At(f, o, j, r, tag)
    requires PrintableList(S, f, DecodeFlat(buf, o, depth))
    ensures Readable(buf, r)
    ensures f.kind == STR ==> StringOK(Kid(Shown(buf, r, depth), tag))
    ensures f.kind == PTR ==> Printable(S, f.tag1, Shown(buf, r, depth))
  {
    hide Accepted, DecodeFlatElem, Shown, StringOK, Printable;
    ListShown(S, f, buf, o, j, r, tag, depth);
    var t := DecodeFlat(buf, o, depth);
    assert PrintableItem(S, f, t.elems[j]);
  }
}
