/** The text format end to end: from a serialized message to text, through the parser and the builder, and
    back to a serialized message. */
module TextFormat {
  import opened Bytes
  import opened Wire
  import opened Pool
  import opened Decode
  import opened Cells
  import opened Forest
  import opened Schemas
  import opened Views
  import L = Lexer
  import opened ValueParser
  import opened PoolParser
  import opened ParseSim
  import opened ParseSteps
  import opened ParseItems
  import opened ParseAgree
  import T = Texts
  import R = TextRoundTrip

  /** Inputs for which ids and element counts cannot run out. */
  const MAX_INPUT := 0x2000_0000

  lemma RootValid(S: Schema, mi: nat)
    requires SchemaOK(S) && mi < |S.msgs|
    ensures ValidShape(RootShape(S, mi))
  {
    assert MsgOK(S, S.msgs[mi]);
  }

  lemma NoPool()
    ensures WF([])
  {
  }

  /** A new root is an open, empty message. */
  lemma RootOpens(S: Schema, mi: nat, n: nat)
    requires SchemaOK(S) && mi < |S.msgs| && n <= MAX_INPUT
    ensures ValidShape(RootShape(S, mi))
    ensures var P := Create([], RootShape(S, mi));
            && Open(S, mi, P, P, 0, 0, RootShape(S, mi)) && Room(P, n)
            && PoolMsg(S, mi, P, 0, 0) == Empty(S, mi)
  {
    hide WFObj, Head, Slot, PoolScalar, Tidy, SchemaOK, PoolBit, Frame, Empty, NewObj, WF, Untouched, PoolMsg;
    RootValid(S, mi);
    NoPool();
    var o := RootShape(S, mi);
    var P := Create([], o);
    assert P == [NewObj(o)];
    CreateWF([], o);
    NewCells(o);
    NothingOwned(P);
    FrameRefl(P, 0, 0);
    BlankMsg(S, mi, P, 0, 0);
    RootChildren(S, mi, P);
  }

  lemma RootChildren(S: Schema, mi: nat, P: Pool)
    requires mi < |S.msgs| && |P| == 1 && Head(P[0]).nelem == 1 && NoLinks(P[0])
    ensures forall i :: 0 <= i < |S.msgs[mi].fields| ==> ChildOK(S, S.msgs[mi].fields[i], P, 0, 0, 1)
  {
    hide Head, Slot;
  }

  lemma NothingOwned(P: Pool)
    requires WF(P) && |P| == 1 && NoLinks(P[0]) && SpareBitsZero(P[0])
    ensures Tidy(P)
  {
    hide WF, Head, Slot, SpareBitsZero;
    assert Owned(P, [Owner(0, 0, 0)]);
  }

  /** Whatever the input, the parser leaves a well-formed pool whose root holds exactly the message that the
      value parser computes, and it stops at the same place with the same status.  No assertion and no
      bounds check of the builder ever fails. */
  lemma ParsesAnything(S: Schema, mi: nat, input: seq<byte>)
    requires SchemaOK(S) && mi < |S.msgs| && |input| <= MAX_INPUT
    ensures var c, a := ParseAll(S, mi, input), ReadAll(S, mi, input);
            && c.st == a.st && c.st != Broken && c.p == a.p
            && WF(c.P) && Tidy(c.P) && |c.P| > 0 && Head(c.P[0]).nelem == 1
            && Head(c.P[0]).ssize == S.msgs[mi].ssize && Head(c.P[0]).psize == S.msgs[mi].psize
            && PoolMsg(S, mi, c.P, 0, 0) == a.m
  {
    hide WF, Tidy, Head, PoolMsg, ParseMsg, ReadMsg, Empty, SchemaOK, L.Lex, ValidShape, NewObj, Left;
    RootValid(S, mi);
    RootAgrees(S, mi, input);
  }

  /** The run of the parser on a new root. */
  lemma RootAgrees(S: Schema, mi: nat, input: seq<byte>)
    requires SchemaOK(S) && mi < |S.msgs| && |input| <= MAX_INPUT
    ensures var p := L.Lex(input);
            var c := ParseMsg(S, mi, Create([], RootShape(S, mi)), 0, RootShape(S, mi), p);
            var a := ReadMsg(S, mi, Empty(S, mi), p);
            && c.st == a.st && c.p == a.p
            && WF(c.P) && Tidy(c.P) && |c.P| > 0 && Head(c.P[0]).nelem == 1
            && Head(c.P[0]).ssize == S.msgs[mi].ssize && Head(c.P[0]).psize == S.msgs[mi].psize
            && PoolMsg(S, mi, c.P, 0, 0) == a.m
  {
    hide Open, WF, Tidy, Head, PoolMsg, ParseMsg, ReadMsg, Frame, Empty, SchemaOK, L.Lex, NewObj, Room;
    var p := L.Lex(input);
    RootOpens(S, mi, |input|);
    var P := Create([], RootShape(S, mi));
    RoomLess(P, |input|, Left(p));
    MsgAgrees(S, mi, P, P, 0, 0, RootShape(S, mi), p);
    NewRoot(S, mi);
    RootStays(S, mi, P, ParseMsg(S, mi, P, 0, RootShape(S, mi), p).P);
  }

  lemma NewRoot(S: Schema, mi: nat)
    requires mi < |S.msgs| && ValidShape(RootShape(S, mi))
    ensures var P := Create([], RootShape(S, mi)); |P| == 1 && Head(P[0]).nelem == 1
  {
    hide Head, NewObj, ValidShape;
    NewObjWF(RootShape(S, mi));
  }

  lemma RootStays(S: Schema, mi: nat, P: Pool, Q: Pool)
    requires mi < |S.msgs| && Open(S, mi, P, Q, 0, 0, RootShape(S, mi)) && |P| == 1 && Head(P[0]).nelem == 1
    ensures WF(Q) && Tidy(Q) && |Q| > 0 && Head(Q[0]).nelem == 1
    ensures Head(Q[0]).ssize == S.msgs[mi].ssize && Head(Q[0]).psize == S.msgs[mi].psize
  {
    hide WF, Tidy, Head;
  }

  // ---------------------------------------------------------------- flat buffers

  /** The message that a typed reader finds in a flat buffer, reading at most `depth` levels deep. */
  function FlatMsg(S: Schema, mi: nat, buf: seq<byte>, depth: nat): (m: Msg)
    requires mi < |S.msgs| && ObjInit(buf, 0).nelem > 0 && depth > 0
    ensures |m| == |S.msgs[mi].fields|
  {
    InitAccepted(buf, 0);
    ViewMsg(S, mi, DecodeFlatElem(buf, ObjInit(buf, 0), 0, depth))
  }

  /** In a serialized pool it is the message at the root. */
  lemma FlatIsPool(S: Schema, mi: nat, P: Pool, depth: nat)
    requires mi < |S.msgs| && WF(P) && Fits(P) && |P| > 0 && Head(P[0]).nelem > 0 && depth >= |P|
    ensures ObjInit(Ser(P), 0).nelem > 0
    ensures FlatMsg(S, mi, Ser(P), depth) == PoolMsg(S, mi, P, 0, 0)
  {
    hide WF, Ser, Head, Fits, DecodeFlatElem, DecodePoolElem, ViewMsg;
    SerHead(P, 0);
    assert Off(P, 0) == 0;
    MeaningElem(P, 0, 0, depth);
  }

  /** A message of the schema, with names and strings that survive as text. */
  predicate Printable(S: Schema, mi: nat, m: Msg) {
    SchemaOK(S) && R.NamesOK(S) && mi < |S.msgs| && R.SafeMsg(m)
  }

  /** Text made from any serialized message parses, all of it, into a pool that serializes to a message
      with the same fields and elements; only the first element of each list of bools is cleared. */
  lemma TextRoundTrip(S: Schema, mi: nat, buf: seq<byte>, inc: int, depth: nat, again: nat)
    requires mi < |S.msgs| && ObjInit(buf, 0).nelem > 0 && depth > 0
    requires Printable(S, mi, FlatMsg(S, mi, buf, depth))
    requires |T.Text(S, mi, FlatMsg(S, mi, buf, depth), inc)| <= MAX_INPUT
    ensures var m := FlatMsg(S, mi, buf, depth);
            var c := ParseAll(S, mi, T.Text(S, mi, m, inc));
            && c.st == Good && c.p == L.Pos(L.Eof, []) && WF(c.P)
            && (Fits(c.P) && again >= |c.P| > 0 ==>
                  && ObjInit(Ser(c.P), 0).nelem > 0
                  && FlatMsg(S, mi, Ser(c.P), again) == R.ClearMsg(S, mi, m)
                  && (FlatMsg(S, mi, Ser(c.P), again) == m <==> R.FirstsFalse(S, mi, m)))
  {
    hide WF, Ser, Head, Fits, ObjInit, ParseAll, ReadAll, PoolMsg, Tidy, SchemaOK, R.NamesOK, R.SafeMsg;
    hide R.ClearMsg, R.FirstsFalse, Typed;
    var m := FlatMsg(S, mi, buf, depth);
    FlatTyped(S, mi, buf, depth);
    R.RoundTrip(S, mi, m, inc);
    R.ClearIff(S, mi, m);
    var text := T.Text(S, mi, m, inc);
    hide T.Text, FlatMsg;
    ParsesAnything(S, mi, text);
    var c := ParseAll(S, mi, text);
    if Fits(c.P) && again >= |c.P| > 0 {
      FlatIsPool(S, mi, c.P, again);
    }
  }

  lemma FlatTyped(S: Schema, mi: nat, buf: seq<byte>, depth: nat)
    requires SchemaOK(S) && mi < |S.msgs| && ObjInit(buf, 0).nelem > 0 && depth > 0
    ensures Typed(S, mi, FlatMsg(S, mi, buf, depth))
  {
    hide Typed, ViewMsg, DecodeFlatElem, SchemaOK, ObjInit;
    InitAccepted(buf, 0);
    ViewTyped(S, mi, DecodeFlatElem(buf, ObjInit(buf, 0), 0, depth));
  }

  // ---------------------------------------------------------------- growing lists

  /** Asks for a new element of a list field, count times. */
  function InitMany(S: Schema, f: FieldDesc, P: Pool, k: nat, r: Obj, count: nat): InitResult {
    if count == 0 then Ready(P, Ref(k, r, f.tag0))
    else
      var at := InitMany(S, f, P, k, r, count - 1);
      if at.Ready? then InitPtr(S, f, at.P, k, r) else Stuck
  }

  function Blanks(S: Schema, f: FieldDesc, count: nat): (s: seq<Val>)
    ensures |s| == count
  {
    seq(count, d => Blank(S, f))
  }

  /** The slot of a list leads to the same object as before, or to a new one if there was none. */
  ghost predicate SameList(P: Pool, Q: Pool, k: nat, e: nat, i: nat) {
    && k < |P| <= |Q|
    && (Slot(Q[k], e, i) == Slot(P[k], e, i) || (Slot(P[k], e, i) == 0 && Slot(Q[k], e, i) >= |P|))
    && (forall j :: 0 <= j < |P| && j != k && j != Slot(P[k], e, i) ==> Q[j] == P[j])
  }

  lemma SameListTrans(P: Pool, Q: Pool, R: Pool, k: nat, e: nat, i: nat)
    requires SameList(P, Q, k, e, i) && SameList(Q, R, k, e, i)
    ensures SameList(P, R, k, e, i)
  {
    hide Slot;
  }

  lemma {:induction false} GrowOnce(S: Schema, mi: nat, P0: Pool, P: Pool, k: nat, e: nat, r: Obj, i: nat, n: nat)
    returns (Q: Pool, ref: Ref)
    requires Open(S, mi, P0, P, k, e, r) && i < |S.msgs[mi].fields| && S.msgs[mi].fields[i].list
    requires Room(P, n) && 0 < n
    ensures var f, m := S.msgs[mi].fields[i], PoolMsg(S, mi, P, k, e);
            && InitPtr(S, f, P, k, r) == Ready(Q, ref)
            && Open(S, mi, P0, Q, k, e, r) && Room(Q, n - 1)
            && PoolMsg(S, mi, Q, k, e) == m[i := Items(m[i].s + [Blank(S, f)])]
            && Child(S, f, Q, k, e, ref, |m[i].s|)
            && SameList(P, Q, k, e, f.tag0)
  {
    hide Open, PoolField, WF, WFObj, Head, Slot, Room, Frame, InitPtr, Untouched, Blank, SchemaOK, Tidy, HasShape;
    hide RefOK, ItemAt;
    OpenFacts(S, mi, P0, P, k, e, r);
    FieldFacts(S, mi, i);
    var f := S.msgs[mi].fields[i];
    PtrTag(S.msgs[mi], f);
    var t := Slot(P[k], e, f.tag0);
    if t == 0 {
      NullField(S, f, P, k, e);
      Q, ref := FirstStep(S, mi, P0, P, k, e, r, i, n, n - 1);
    } else {
      FieldItems(S, f, P, k, e, t);
      Q, ref := GrowStep(S, mi, P0, P, k, e, r, i, t, n, n - 1);
    }
  }

  /** What count calls lead to: count elements more that read as never written.  Earlier elements, all
      other fields and all other objects are as they were, and the header counts the elements. */
  ghost predicate GrownBy(S: Schema, mi: nat, P0: Pool, P: Pool, k: nat, e: nat, r: Obj, i: nat, count: nat,
      n: nat, Q: Pool, ref: Ref)
    requires Open(S, mi, P0, P, k, e, r) && i < |S.msgs[mi].fields| && count <= n
  {
    OpenFacts(S, mi, P0, P, k, e, r);
    var f, m := S.msgs[mi].fields[i], PoolMsg(S, mi, P, k, e);
    && InitMany(S, f, P, k, r, count) == Ready(Q, ref)
    && Open(S, mi, P0, Q, k, e, r) && Room(Q, n - count)
    && SameList(P, Q, k, e, f.tag0)
    && (OpenFacts(S, mi, P0, Q, k, e, r);
        PoolMsg(S, mi, Q, k, e) == m[i := Items(m[i].s + Blanks(S, f, count))]
        && (count > 0 ==> Child(S, f, Q, k, e, ref, |m[i].s| + count - 1)))
  }

  /** Every call for a new element adds one to the list. */
  lemma {:induction false} ListGrowth(S: Schema, mi: nat, P0: Pool, P: Pool, k: nat, e: nat, r: Obj, i: nat,
      count: nat, n: nat)
    returns (Q: Pool, ref: Ref)
    requires Open(S, mi, P0, P, k, e, r) && i < |S.msgs[mi].fields| && S.msgs[mi].fields[i].list
    requires Room(P, n) && count <= n
    ensures GrownBy(S, mi, P0, P, k, e, r, i, count, n, Q, ref)
  {
    hide Open, GrownBy, Room;
    if count == 0 {
      Q, ref := NoGrowth(S, mi, P0, P, k, e, r, i, n);
    } else {
      var q, at := ListGrowth(S, mi, P0, P, k, e, r, i, count - 1, n);
      Q, ref := OneMore(S, mi, P0, P, k, e, r, i, count, n, q, at);
    }
  }

  lemma NoGrowth(S: Schema, mi: nat, P0: Pool, P: Pool, k: nat, e: nat, r: Obj, i: nat, n: nat)
    returns (Q: Pool, ref: Ref)
    requires Open(S, mi, P0, P, k, e, r) && i < |S.msgs[mi].fields| && Room(P, n)
    ensures GrownBy(S, mi, P0, P, k, e, r, i, 0, n, Q, ref)
  {
    hide Open, PoolField, WF, Head, Slot, Room, Child, Blank, Tidy;
    OpenFacts(S, mi, P0, P, k, e, r);
    var f, m := S.msgs[mi].fields[i], PoolMsg(S, mi, P, k, e);
    Q, ref := P, Ref(k, r, f.tag0);
    assert m[i].s + Blanks(S, f, 0) == m[i].s;
    assert m[i := m[i]] == m;
  }

  lemma {:induction false} OneMore(S: Schema, mi: nat, P0: Pool, P: Pool, k: nat, e: nat, r: Obj, i: nat,
      count: nat, n: nat, q: Pool, at: Ref)
    returns (Q: Pool, ref: Ref)
    requires Open(S, mi, P0, P, k, e, r) && i < |S.msgs[mi].fields| && S.msgs[mi].fields[i].list
    requires 0 < count <= n && GrownBy(S, mi, P0, P, k, e, r, i, count - 1, n, q, at)
    ensures GrownBy(S, mi, P0, P, k, e, r, i, count, n, Q, ref)
  {
    hide Open, PoolField, PoolMsg, WF, Head, Slot, Room, InitPtr, Child, Blank, Tidy, SameList, SchemaOK;
    OpenFacts(S, mi, P0, P, k, e, r);
    OpenFacts(S, mi, P0, q, k, e, r);
    var f, m := S.msgs[mi].fields[i], PoolMsg(S, mi, P, k, e);
    Q, ref := GrowOnce(S, mi, P0, q, k, e, r, i, n - count + 1);
    SameListTrans(P, q, Q, k, e, f.tag0);
    BlanksGrow(S, f, m[i].s, count - 1);
    var olds := Items(m[i].s + Blanks(S, f, count - 1));
    var news := Items(m[i].s + Blanks(S, f, count));
    assert m[i := olds][i := news] == m[i := news];
  }

  lemma BlanksGrow(S: Schema, f: FieldDesc, s: seq<Val>, count: nat)
    ensures (s + Blanks(S, f, count)) + [Blank(S, f)] == s + Blanks(S, f, count + 1)
  {
    hide Blank;
  }
}
