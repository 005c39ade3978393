/** The parser of the text format as it is (lib/parse.c): it writes fields straight into the builder's
    pool through field references (include/libnbuf.h). */
module PoolParser {
  import opened Bytes
  import opened Wire
  import opened Pool
  import opened Simulation
  import opened Schemas
  import opened Views
  import L = Lexer
  import opened ValueParser

  /** A reference to the place of a value: an object, a handle inside it, and an offset or index. */
  datatype Ref = Ref(k: nat, r: Obj, tag: nat)

  /** A pool and a place in it, or a failed assertion. */
  datatype InitResult = Ready(P: Pool, ref: Ref) | Stuck

  datatype PutResult = Stored(P: Pool) | Refused

  /** The word of a pointer slot is not null. */
  predicate HasPtr(P: Pool, k: nat, r: Obj, i: nat) {
    k < |P| && Readable(P[k], r) && RelPtr(P[k], r, i) != 0
  }

  /** Creates the object behind a list or message field, or appends an element to it. */
  function InitPtr(S: Schema, f: FieldDesc, P: Pool, k: nat, r: Obj): InitResult {
    if k >= |P| || !Readable(P[k], r) then Stuck
    else if RelPtr(P[k], r, f.tag0) != 0 then AppendItem(f, P, RelPtr(P[k], r, f.tag0))
    else FirstItem(S, f, P, k, r)
  }

  /** Grows object t by one element.  Growing is refused, without an error, for an object that does not
      end its buffer; the reference is then to nothing. */
  function AppendItem(f: FieldDesc, P: Pool, t: int): InitResult {
    if !(0 < t < |P|) || !f.list || |P[t]| < 8 then Stuck
    else
      var list := ObjInit(P[t], 0);
      var n := list.nelem;
      var tag := if f.kind == BOOL then n % 8 else 0;
      if n + 8 >= U32 then Stuck
      else if ObjSize(list) != |P[t]| then Ready(P, Ref(t, NULL, tag))
      else Ready(P[t := Grown(P[t], n + 1)], Ref(t, GetElem(list.(nelem := n + 1), n), tag))
  }

  /** Creates an object with one element and links it.  The reference is to the object itself, so it has
      the sizes of the header even for a list of bits. */
  function FirstItem(S: Schema, f: FieldDesc, P: Pool, k: nat, r: Obj): InitResult
    requires k < |P|
  {
    var o := Obj(8, 1, ItemShape(S, f).0, ItemShape(S, f).1);
    var x := r.base + PtrOffs(r, f.tag0);
    if !ValidShape(o) || x + 4 > |P[k]| then Stuck
    else Ready(Write(Create(P, o), k, x, LE(|P|, 4)), Ref(|P|, o, 0))
  }

  /** Stores a string object and links it; a string that was there before stays in the pool. */
  function PutStr(P: Pool, k: nat, r: Obj, i: nat, s: seq<byte>): PutResult {
    var x := r.base + PtrOffs(r, i);
    if k >= |P| || |s| + 1 >= U32 || x + 4 > |P[k]| then Refused
    else
      StrFits(s);
      Stored(Write(P + [Splice(NewObj(StrShape(s)), 8, s)], k, x, LE(|P|, 4)))
  }

  /** Stores a value at a reference. */
  function PutLiteral(f: FieldDesc, P: Pool, ref: Ref, v: Val): PutResult {
    if ref.k >= |P| || !Readable(P[ref.k], ref.r) then Refused
    else
      match v
      case VBool(b) => Stored(P[ref.k := PutBit(P[ref.k], ref.r, ref.tag, b)])
      case VInt(n) =>
        if ScalarWidth(f) == 0 || ref.tag % ScalarWidth(f) != 0 then Refused
        else Stored(P[ref.k := PutInt(P[ref.k], ref.r, ref.tag, ScalarWidth(f), n)])
      case VStr(s) => PutStr(P, ref.k, ref.r, ref.tag, s)
      case VMsg(_) => Refused
  }

  datatype ParseResult = ParseResult(P: Pool, st: Status, p: L.Pos)

  /** Parses fields into the element that (k, r) designates. */
  function ParseMsg(S: Schema, mi: nat, P: Pool, k: nat, r: Obj, p: L.Pos): (q: ParseResult)
    requires mi < |S.msgs|
    ensures Left(q.p) <= Left(p)
    decreases Left(p), 3
  {
    if !p.tok.Ident? then ParseResult(P, Good, p)
    else
      var fields := S.msgs[mi].fields;
      var i := FindField(fields, p.tok.s);
      if i.None? then ParseResult(P, Good, p)
      else
        var f := fields[i.value];
        if f.kind == PTR && !f.list && HasPtr(P, k, r, f.tag0) then ParseResult(P, Good, p)
        else
          var v := ParseField(S, f, P, k, r, p);
          if v.st == Good then ParseMsg(S, mi, v.P, k, r, SkipComma(v.p)) else v
  }

  /** Prepares the place of the value and parses what follows the name. */
  function ParseField(S: Schema, f: FieldDesc, P: Pool, k: nat, r: Obj, p: L.Pos): (q: ParseResult)
    requires p.tok.Ident?
    ensures Left(q.p) <= Left(p)
    ensures q.st == Good ==> Left(q.p) < Left(p)
    decreases Left(p), 2
  {
    var at := if Grows(f) then InitPtr(S, f, P, k, r) else Ready(P, Ref(k, r, f.tag0));
    if at.Stuck? then ParseResult(P, Broken, p) else ParseValue(S, f, at.P, at.ref, Next(p))
  }

  function ParseValue(S: Schema, f: FieldDesc, P: Pool, ref: Ref, p: L.Pos): (q: ParseResult)
    ensures Left(q.p) <= Left(p)
    decreases Left(p), 1
  {
    if f.kind == PTR then
      var q := if p.tok == L.Punct(L.COLON) then Next(p) else p;
      if q.tok != L.Punct(L.OPEN) || f.tag1 >= |S.msgs| then ParseResult(P, Bad, q)
      else
        var n := ParseMsg(S, f.tag1, P, ref.k, ref.r, Next(q));
        if n.st != Good then n
        else if n.p.tok == L.Punct(L.CLOSE) then ParseResult(n.P, Good, Next(n.p))
        else ParseResult(n.P, Bad, n.p)
    else if p.tok != L.Punct(L.COLON) then ParseResult(P, Bad, p)
    else ParseLiteral(S, f, P, ref, Next(p))
  }

  function ParseLiteral(S: Schema, f: FieldDesc, P: Pool, ref: Ref, q: L.Pos): (r: ParseResult)
    ensures Left(r.p) <= Left(q)
  {
    match ReadLiteral(S, f, q.tok)
    case Lit(v) =>
      var put := PutLiteral(f, P, ref, v);
      if put.Stored? then ParseResult(put.P, Good, Next(q)) else ParseResult(P, Broken, q)
    case NoLit => ParseResult(P, Bad, q)
    case Crash => ParseResult(P, Aborted, q)
  }

  /** The object that a whole input is parsed into. */
  function RootShape(S: Schema, mi: nat): Obj
    requires mi < |S.msgs|
  {
    Obj(8, 1, S.msgs[mi].ssize, S.msgs[mi].psize)
  }

  /** Parses a whole input into a new pool. */
  function ParseAll(S: Schema, mi: nat, input: seq<byte>): (q: ParseResult)
    requires mi < |S.msgs|
  {
    if !ValidShape(RootShape(S, mi)) then ParseResult([], Broken, L.Lex(input))
    else
      var r := ParseMsg(S, mi, Create([], RootShape(S, mi)), 0, RootShape(S, mi), L.Lex(input));
      if r.st == Good && r.p.tok != L.Eof then r.(st := Bad) else r
  }
}
