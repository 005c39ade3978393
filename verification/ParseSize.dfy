/** How much the parser can make of its input: the flat size of what it builds is bounded by the length of the
    input and the largest message of the schema, so that short enough inputs can always be serialized. */
module ParseSize {
  import opened Bytes
  import opened Wire
  import opened Pool
  import opened Decode
  import opened Cells
  import opened Schemas
  import opened Views
  import L = Lexer
  import opened ValueParser
  import opened PoolParser
  import opened ParseSim
  import opened ParseSteps
  import opened ParseAgree
  import Sim = Simulation
  import F = TextFormat
  import R = TextRoundTrip
  import T = Texts

  /** The size of the largest element. */
  function Largest(msgs: seq<MsgDesc>): nat {
    if msgs == [] then 8
    else
      var m := Largest(msgs[..|msgs| - 1]);
      var n := msgs[|msgs| - 1].ssize + 4 * msgs[|msgs| - 1].psize;
      if m < n then n else m
  }

  lemma {:induction false} LargestIs(msgs: seq<MsgDesc>, i: nat)
    ensures Largest(msgs) >= 8
    ensures i < |msgs| ==> msgs[i].ssize + 4 * msgs[i].psize <= Largest(msgs)
    decreases |msgs|
  {
    if msgs != [] {
      LargestIs(msgs[..|msgs| - 1], i);
    }
  }

  /** What one byte of input can cost: an object for one element. */
  function Cost(S: Schema): (c: nat)
    ensures c >= 16
  {
    Largest(S.msgs) + 16
  }

  lemma ItemSize(S: Schema, f: FieldDesc)
    requires FieldOK(S, f)
    ensures ItemShape(S, f).0 + 4 * ItemShape(S, f).1 + 16 <= Cost(S)
  {
    LargestIs(S.msgs, if f.kind == PTR then f.tag1 else 0);
  }

  function Total(P: Pool): nat {
    Off(P, |P|)
  }

  /** What is built, and what can still be built from the input. */
  function Cap(S: Schema, P: Pool, p: L.Pos): nat {
    var n, c := Left(p), Cost(S);
    Total(P) + n * c
  }

  lemma CapLess(S: Schema, P: Pool, Q: Pool, p: L.Pos, q: L.Pos, d: nat)
    requires Left(q) + d <= Left(p) && Total(Q) <= Total(P) + d * Cost(S)
    ensures Cap(S, Q, q) <= Cap(S, P, p)
  {
    hide Total, Cost;
    var c := Cost(S);
    MulMono(Left(q) + d, Left(p), c);
    assert (Left(q) + d) * c == Left(q) * c + d * c;
  }

  lemma SameTotals(P: Pool, Q: Pool)
    requires |P| == |Q| && forall j :: 0 <= j < |P| ==> |Q[j]| == |P[j]|
    ensures Total(Q) == Total(P)
  {
    OffAgree(P, Q, |P|);
  }

  lemma OneTotal(P: Pool, Q: Pool)
    requires |Q| == |P| + 1 && forall j :: 0 <= j < |P| ==> |Q[j]| == |P[j]|
    ensures Total(Q) == Total(P) + |Q[|P|]|
  {
    OffAgree(P, Q, |P|);
  }

  lemma {:induction false} ReplacedOff(P: Pool, Q: Pool, t: nat, n: nat)
    requires t < |P| == |Q| && n <= |P| && forall j :: 0 <= j < |P| && j != t ==> Q[j] == P[j]
    ensures Off(Q, n) + (if t < n then |P[t]| else 0) == Off(P, n) + (if t < n then |Q[t]| else 0)
  {
    if n > 0 {
      ReplacedOff(P, Q, t, n - 1);
    }
  }

  /** One element more makes an object longer by at most that element, rounded up. */
  lemma GrownSize(h: Obj)
    requires ValidShape(h) && ValidShape(h.(nelem := h.nelem + 1))
    ensures ObjSize(h.(nelem := h.nelem + 1)) <= ObjSize(h) + ElemSize(h) + 8
  {
    var g := h.(nelem := h.nelem + 1);
    PayloadFacts(h);
    PayloadFacts(g);
    assert ElemSize(g) == ElemSize(h);
    var es := ElemSize(h);
    assert es * (h.nelem + 1) == es * h.nelem + es;
    hide PayloadSize, ElemSize;
    RoundUpProps(8 + PayloadSize(h), 8);
    RoundUpProps(8 + PayloadSize(g), 8);
  }

  lemma SingleSize(o: Obj)
    requires o.nelem == 1
    ensures ObjSize(o) <= ElemSize(o) + 16
  {
    RoundUpProps(8 + PayloadSize(o), 8);
  }

  // ---------------------------------------------------------------- single steps

  /** Preparing the place of a value. */
  lemma InitSize(S: Schema, f: FieldDesc, P: Pool, k: nat, r: Obj, Q: Pool, ref: Ref)
    requires WF(P) && WF(Q) && FieldOK(S, f) && InitPtr(S, f, P, k, r) == Ready(Q, ref)
    requires ref.k < |Q| && HasShape(S, f, Head(Q[ref.k]))
    ensures Total(Q) <= Total(P) + Cost(S)
  {
    hide WF, WFObj, Head, RelPtr, Readable, ValidShape, Grown, ObjInit, GetElem, ObjSize, NewObj, LE, Total, Cost;
    hide ElemSize, Off;
    ItemSize(S, f);
    if RelPtr(P[k], r, f.tag0) != 0 {
      var t := RelPtr(P[k], r, f.tag0);
      AppendSize(f, P, t, Q, ref);
      ElemIs(Head(Q[t]));
    } else {
      var o := Obj(8, 1, ItemShape(S, f).0, ItemShape(S, f).1);
      NewObjSize(o);
      SingleSize(o);
      ElemIs(o);
      OneTotal(P, Q);
    }
  }

  lemma ElemIs(h: Obj)
    ensures ElemSize(h) == h.ssize + 4 * h.psize
  {
  }

  lemma NewObjSize(o: Obj)
    ensures |NewObj(o)| == ObjSize(o)
  {
    RoundUpProps(8 + PayloadSize(o), 8);
  }

  lemma AppendSize(f: FieldDesc, P: Pool, t: int, Q: Pool, ref: Ref)
    requires WF(P) && WF(Q) && AppendItem(f, P, t) == Ready(Q, ref)
    ensures 0 < t < |P| == |Q| && ref.k == t && Total(Q) <= Total(P) + ElemSize(Head(Q[t])) + 8
  {
    hide WF, WFObj, Head, ValidShape, Grown, ObjInit, GetElem, ObjSize, ElemSize, Off;
    ObjAt(P, t);
    HeadIsInit(P[t]);
    SizeOfWF(P[t]);
    var n := Head(P[t]).nelem;
    GrownHead(P[t], n + 1);
    ObjAt(Q, t);
    SizeOfWF(Q[t]);
    ShapeAt(P[t]);
    ShapeAt(Q[t]);
    GrownSize(Head(P[t]));
    ElemIs(Head(P[t]));
    ElemIs(Head(Q[t]));
    ReplacedOff(P, Q, t, |P|);
  }

  lemma ShapeAt(b: seq<byte>)
    requires WFObj(b)
    ensures ValidShape(Head(b))
  {
  }

  /** Storing a literal. */
  lemma PutSize(f: FieldDesc, P: Pool, ref: Ref, v: Val, Q: Pool)
    requires PutLiteral(f, P, ref, v) == Stored(Q)
    ensures Total(Q) <= Total(P) + (if v.VStr? then |v.s| + 16 else 0)
  {
    hide Readable, NewObj, ValidShape, PutInt, PutBit, Total, Sim.StrShape, LE;
    if v.VStr? {
      StringSize(v.s);
      OneTotal(P, Q);
    } else {
      SameTotals(P, Q);
    }
  }

  lemma StringSize(s: seq<byte>)
    requires |s| + 1 < U32
    ensures |NewObj(Sim.StrShape(s))| <= |s| + 16
  {
    var o := Sim.StrShape(s);
    NewObjSize(o);
    Sim.StrFits(s);
    hide PayloadSize;
    RoundUpProps(8 + PayloadSize(o), 8);
  }

  // ---------------------------------------------------------------- the parser

  lemma {:induction false} MsgSize(S: Schema, mi: nat, P0: Pool, P: Pool, k: nat, e: nat, r: Obj, p: L.Pos)
    requires Open(S, mi, P0, P, k, e, r) && Room(P, Left(p))
    ensures var c := ParseMsg(S, mi, P, k, r, p);
            Cap(S, c.P, c.p) <= Cap(S, P, p)
    decreases Left(p), 3
  {
    hide Open, PoolField, WF, Head, Room, FindField, HasPtr, ParseField, ReadField, Prepared, Cap;
    OpenFacts(S, mi, P0, P, k, e, r);
    if p.tok.Ident? {
      var at := FindField(S.msgs[mi].fields, p.tok.s);
      if at.Some? {
        var i := at.value;
        var f := S.msgs[mi].fields[i];
        RepeatedIff(S, mi, P0, P, k, e, r, i);
        if !Repeated(f, PoolMsg(S, mi, P, k, e)[i]) {
          FieldAgrees(S, mi, P0, P, k, e, r, i, p);
          FieldSize(S, mi, P0, P, k, e, r, i, p);
          var c := ParseField(S, f, P, k, r, p);
          if c.st == Good {
            RoomLess(c.P, Left(c.p), Left(SkipComma(c.p)));
            CapLess(S, c.P, c.P, c.p, SkipComma(c.p), 0);
            MsgSize(S, mi, P0, c.P, k, e, r, SkipComma(c.p));
          }
        }
      }
    }
  }

  lemma {:induction false} FieldSize(S: Schema, mi: nat, P0: Pool, P: Pool, k: nat, e: nat, r: Obj, i: nat, p: L.Pos)
    requires Open(S, mi, P0, P, k, e, r) && Room(P, Left(p)) && p.tok.Ident? && i < |S.msgs[mi].fields|
    requires !Repeated(S.msgs[mi].fields[i], PoolMsg(S, mi, P, k, e)[i])
    ensures var c := ParseField(S, S.msgs[mi].fields[i], P, k, r, p);
            Cap(S, c.P, c.p) <= Cap(S, P, p)
    decreases Left(p), 2
  {
    hide Open, PoolField, WF, WFObj, Head, Slot, Room, ParseValue, InitPtr, Prepared, Cap, Cost, Total, HasShape;
    hide FieldOK, Untouched, SchemaOK;
    OpenFacts(S, mi, P0, P, k, e, r);
    var f := S.msgs[mi].fields[i];
    FieldFacts(S, mi, i);
    var Q, ref, n := PrepareStep(S, mi, P0, P, k, e, r, i, p);
    OpenFacts(S, mi, P0, Q, k, e, r);
    if Grows(f) {
      InitSize(S, f, P, k, r, Q, ref);
    }
    CapLess(S, P, Q, p, Next(p), 1);
    ValueSize(S, mi, P0, Q, k, e, r, i, ref, n, Next(p));
  }

  lemma LiteralSize(S: Schema, f: FieldDesc, Q: Pool, ref: Ref, p: L.Pos)
    requires p.tok == L.Punct(L.COLON) && f.kind != PTR
    ensures var c := ParseLiteral(S, f, Q, ref, Next(p));
            Cap(S, c.P, c.p) <= Cap(S, Q, p)
  {
    hide ReadLiteral, PutLiteral, L.Lex, Cap, Cost, Total;
    var q := Next(p);
    var lit := ReadLiteral(S, f, q.tok);
    CapLess(S, Q, Q, p, q, 0);
    if lit.Lit? {
      LiteralSuits(S, f, q.tok);
      TokenShort(p.rest);
      var put := PutLiteral(f, Q, ref, lit.v);
      if put.Stored? {
        PutSize(f, Q, ref, lit.v, put.P);
        var d := if lit.v.VStr? then |lit.v.s| + 1 else 0;
        EachByte(d, Cost(S));
        CapLess(S, Q, put.P, p, Next(q), d);
      }
    }
  }

  lemma EachByte(d: nat, c: nat)
    requires c >= 16
    ensures d > 0 ==> d * c >= d + 15
  {
    if d > 0 {
      MulMono(16, c, d);
      assert c * d == d * c;
    }
  }

  lemma {:induction false} ValueSize(S: Schema, mi: nat, P0: Pool, Q: Pool, k: nat, e: nat, r: Obj, i: nat,
      ref: Ref, n: nat, p: L.Pos)
    requires Open(S, mi, P0, Q, k, e, r) && Room(Q, Left(p)) && i < |S.msgs[mi].fields|
    requires Placed(S, S.msgs[mi].fields[i], Q, k, e, r, ref, n)
    ensures var c := ParseValue(S, S.msgs[mi].fields[i], Q, ref, p);
            Cap(S, c.P, c.p) <= Cap(S, Q, p)
    decreases Left(p), 1
  {
    hide Open, PoolField, WF, WFObj, Head, Slot, Room, Placed, ParseMsg, ParseLiteral, Untouched, Child, Cap;
    OpenFacts(S, mi, P0, Q, k, e, r);
    var f := S.msgs[mi].fields[i];
    if f.kind != PTR {
      if p.tok == L.Punct(L.COLON) {
        LiteralSize(S, f, Q, ref, p);
      }
    } else {
      FieldFacts(S, mi, i);
      var q := if p.tok == L.Punct(L.COLON) then Next(p) else p;
      RoomLess(Q, Left(p), Left(q));
      CapLess(S, Q, Q, p, q, 0);
      if q.tok == L.Punct(L.OPEN) {
        PlacedChild(S, f, Q, k, e, r, ref, n);
        NestedOpens(S, f, Q, k, e, ref, n);
        RoomLess(Q, Left(q), Left(Next(q)));
        CapLess(S, Q, Q, q, Next(q), 0);
        MsgSize(S, f.tag1, Q, Q, ref.k, n, ref.r, Next(q));
        var c := ParseMsg(S, f.tag1, Q, ref.k, ref.r, Next(q));
        if c.p.tok == L.Punct(L.CLOSE) {
          CapLess(S, c.P, c.P, c.p, Next(c.p), 0);
        }
      }
    }
  }

  /** Whatever the input, the flat size of what is parsed is at most that of an object for each byte of it
      and one for the root, each as large as the largest message of the schema with its header. */
  lemma ParsedSize(S: Schema, mi: nat, input: seq<byte>)
    requires SchemaOK(S) && mi < |S.msgs| && |input| <= F.MAX_INPUT
    ensures |Ser(ParseAll(S, mi, input).P)| <= (|input| + 1) * Cost(S)
  {
    hide Open, Room, ParseMsg, L.Lex, NewObj, SchemaOK, ValidShape, Cost, Left, Total, Ser;
    F.RootOpens(S, mi, |input|);
    var o, p := RootShape(S, mi), L.Lex(input);
    var P := Create([], o);
    LexLess(input);
    RoomLess(P, |input|, Left(p));
    MsgSize(S, mi, P, P, 0, 0, o, p);
    var c := ParseMsg(S, mi, P, 0, o, p);
    RootSize(S, mi);
    assert Total(c.P) <= Total(P) + Left(p) * Cost(S);
    MulMono(Left(p), |input|, Cost(S));
    assert (|input| + 1) * Cost(S) == |input| * Cost(S) + Cost(S);
    SerTotal(c.P);
  }

  lemma LexLess(input: seq<byte>)
    ensures Left(L.Lex(input)) <= |input|
  {
  }

  lemma SerTotal(P: Pool)
    ensures |Ser(P)| == Total(P)
  {
  }

  lemma RootSize(S: Schema, mi: nat)
    requires mi < |S.msgs|
    ensures Total(Create([], RootShape(S, mi))) <= Cost(S)
  {
    hide NewObj, ObjSize;
    var o := RootShape(S, mi);
    var P := Create([], o);
    assert P == [NewObj(o)];
    NewObjSize(o);
    SingleSize(o);
    LargestIs(S.msgs, mi);
    OneTotal([], P);
  }

  /** Inputs so short that what is parsed can be serialized, and ids and counts cannot run out. */
  predicate Short(S: Schema, input: seq<byte>) {
    (|input| + 1) * Cost(S) < 0x2_0000_0000
  }

  lemma ShortInput(S: Schema, input: seq<byte>)
    requires Short(S, input)
    ensures |input| <= F.MAX_INPUT
  {
    MulMono(16, Cost(S), |input| + 1);
    assert Cost(S) * (|input| + 1) == (|input| + 1) * Cost(S);
  }

  /** Whatever a short input holds, the builder can serialize what is parsed. */
  lemma ParsedFits(S: Schema, mi: nat, input: seq<byte>)
    requires SchemaOK(S) && mi < |S.msgs| && Short(S, input)
    ensures |input| <= F.MAX_INPUT && Fits(ParseAll(S, mi, input).P)
  {
    hide ParseAll, SchemaOK, Cost, Off;
    ShortInput(S, input);
    ParsedSize(S, mi, input);
  }

  /** The text of a serialized message, if it is short enough, parses into a pool whose serialized form
      shows the same message, the first element of each list of bools cleared. */
  lemma ShortRoundTrip(S: Schema, mi: nat, buf: seq<byte>, inc: int, depth: nat)
    requires mi < |S.msgs| && ObjInit(buf, 0).nelem > 0 && depth > 0
    requires F.Printable(S, mi, F.FlatMsg(S, mi, buf, depth))
    requires Short(S, T.Text(S, mi, F.FlatMsg(S, mi, buf, depth), inc))
    ensures var m := F.FlatMsg(S, mi, buf, depth);
            var c := ParseAll(S, mi, T.Text(S, mi, m, inc));
            && c.st == Good && c.p == L.Pos(L.Eof, [])
            && WF(c.P) && Fits(c.P) && |c.P| > 0 && ObjInit(Ser(c.P), 0).nelem > 0
            && F.FlatMsg(S, mi, Ser(c.P), |c.P|) == R.ClearMsg(S, mi, m)
            && (F.FlatMsg(S, mi, Ser(c.P), |c.P|) == m <==> R.FirstsFalse(S, mi, m))
  {
    hide ParseAll, SchemaOK, R.NamesOK, R.SafeMsg, R.ClearMsg, R.FirstsFalse, Ser, ObjInit, WF, Fits, Head, T.Text;
    hide F.FlatMsg, PoolMsg, Short;
    var text := T.Text(S, mi, F.FlatMsg(S, mi, buf, depth), inc);
    ParsedFits(S, mi, text);
    F.ParsesAnything(S, mi, text);
    F.TextRoundTrip(S, mi, buf, inc, depth, |ParseAll(S, mi, text).P|);
  }
}
