/** Compiling a schema (nbufc/t2b.c): field types are looked up, fields laid out, and the sizes of message
    types computed, with an alignment that is carried from message to message. */
module SchemaCompiler {
  import opened Wire
  import opened Messages
  import opened Schemas
  import opened Names
  import opened Allocator
  import opened Padding

  /** A field whose type was found; the place is not yet known. */
  function Described(fd: FieldDecl, e: Entry, tag0: nat): FieldDesc {
    FieldDesc(fd.name, e.kind, fd.list, tag0, if e.kind == ENUM || e.kind == PTR then e.id else e.size)
  }

  /** All field types are names of the table. */
  predicate Resolved(t: seq<Entry>, fields: seq<FieldDecl>) {
    forall i :: 0 <= i < |fields| ==> Find(t, fields[i].tname).Some?
  }

  function Described0(t: seq<Entry>, fields: seq<FieldDecl>): (r: seq<FieldDesc>)
    requires Resolved(t, fields)
    ensures |r| == |fields|
  {
    seq(|fields|, i requires 0 <= i < |fields| => Described(fields[i], Find(t, fields[i].tname).value, 0))
  }

  /** Every type has a size that the layout knows. */
  predicate Sizes(t: seq<Entry>) {
    forall i :: 0 <= i < |t| ==> EntryOK(t[i])
  }

  predicate EntryOK(e: Entry) {
    match e.kind
    case BOOL => e.size == 0
    case ENUM => e.size == 2
    case INT => e.size in {1, 2, 4, 8}
    case UINT => e.size in {1, 2, 4, 8}
    case FLOAT => e.size in {4, 8}
    case STR => e.size == 1
    case PTR => true
  }

  lemma BuiltinSizes()
    ensures forall i :: 0 <= i < 12 ==> EntryOK(BUILTINS[i])
  {
    assert BUILTINS[0].kind == BOOL && BUILTINS[0].size == 0;
    assert BUILTINS[9].kind == FLOAT && BUILTINS[10].kind == FLOAT && BUILTINS[11].kind == STR;
  }

  lemma TableSizes(src: Source)
    ensures Sizes(Table(src))
  {
    BuiltinSizes();
    var t := Table(src);
    forall i | 0 <= i < |t|
      ensures EntryOK(t[i])
    {
      if i >= 12 + |src.enums| {
        assert t[12 + |src.enums| + (i - 12 - |src.enums|)] == t[i];
      } else if i >= 12 {
        assert t[12 + (i - 12)] == t[i];
      }
    }
  }

  lemma NeedsOK(t: seq<Entry>, fields: seq<FieldDecl>)
    requires Sizes(t) && Resolved(t, fields)
    ensures ValidFields(Needs(Described0(t, fields)))
  {
    var ds := Described0(t, fields);
    forall i | 0 <= i < |ds|
      ensures ValidField(Needs(ds)[i])
    {
      var e := Find(t, fields[i].tname).value;
      var j :| 0 <= j < |t| && t[j] == e;
      assert EntryOK(t[j]);
    }
  }

  /** One message type, and the alignment left for the next. */
  function CompileType(t: seq<Entry>, m: MsgDecl, align: nat): (r: (MsgDesc, nat))
    requires Sizes(t) && Resolved(t, m.fields) && align in {0, 1, 2, 4, 8}
    ensures r.1 in {0, 1, 2, 4, 8}
    ensures |r.0.fields| == |m.fields| && r.0.name == m.name
  {
    hide LayFields, ValidFields, Sizes, Need;
    NeedsOK(t, m.fields);
    var needs := Needs(Described0(t, m.fields));
    var c := CompileMsg(needs, align);
    LayAlign(needs, align);
    (MsgDesc(m.name,
             seq(|m.fields|, i requires 0 <= i < |m.fields| =>
               Described(m.fields[i], Find(t, m.fields[i].tname).value, c.tags[i])),
             c.ssize, c.psize),
     LayFields(needs, align).align)
  }

  lemma LayAlign(needs: seq<Field>, align: nat)
    requires ValidFields(needs) && align in {0, 1, 2, 4, 8}
    ensures LayFields(needs, align).align in {0, 1, 2, 4, 8}
  {
    assert MsgInv(LayFields(needs, align), needs, align);
  }

  function CompileTypes(t: seq<Entry>, msgs: seq<MsgDecl>, align: nat): (r: seq<MsgDesc>)
    requires Sizes(t) && (forall i :: 0 <= i < |msgs| ==> Resolved(t, msgs[i].fields)) && align in {0, 1, 2, 4, 8}
    ensures |r| == |msgs|
  {
    if msgs == [] then []
    else
      var (d, next) := CompileType(t, msgs[0], align);
      [d] + CompileTypes(t, msgs[1..], next)
  }

  /** The compiled schema; none if there are too many types, a name is declared twice, or a field has an
      unknown type. */
  function Compile(src: Source): Option<Schema> {
    var t := Table(src);
    if |t| > MAX_TYPES || !Distinct(t)
       || !(forall i :: 0 <= i < |src.msgs| ==> Resolved(t, src.msgs[i].fields)) then None
    else
      TableSizes(src);
      Some(Schema(src.pkg,
                  seq(|src.enums|, i requires 0 <= i < |src.enums| => EnumType(src.enums[i].name, src.enums[i].values)),
                  CompileTypes(t, src.msgs, 0)))
  }

  /** The alignment that messages reach together. */
  function Reached(t: seq<Entry>, msgs: seq<MsgDecl>): (a: nat)
    requires Sizes(t) && forall i :: 0 <= i < |msgs| ==> Resolved(t, msgs[i].fields)
    ensures a in {0, 1, 2, 4, 8}
  {
    if msgs == [] then 0
    else
      NeedsOK(t, msgs[0].fields);
      Max(Widest(Needs(Described0(t, msgs[0].fields))), Reached(t, msgs[1..]))
  }

  lemma {:induction false} LeftBehind(t: seq<Entry>, m: MsgDecl, align: nat)
    requires Sizes(t) && Resolved(t, m.fields) && align in {0, 1, 2, 4, 8}
    ensures ValidFields(Needs(Described0(t, m.fields)))
    ensures CompileType(t, m, align).1 == Max(align, Widest(Needs(Described0(t, m.fields))))
  {
    hide LayFields, ValidFields, Sizes, Need, CompileMsg, Widest;
    NeedsOK(t, m.fields);
    AlignAside(Needs(Described0(t, m.fields)), align);
  }

  /** Each message of a compiled schema was laid out by the compiler's rules for the alignment reached
      before it, and consists of the declared fields with the types found in the table. */
  lemma {:induction false} TypeCompiled(t: seq<Entry>, msgs: seq<MsgDecl>, align: nat, i: nat) returns (a: nat)
    requires Sizes(t) && (forall i :: 0 <= i < |msgs| ==> Resolved(t, msgs[i].fields)) && align in {0, 1, 2, 4, 8}
    requires i < |msgs|
    ensures a == Max(align, Reached(t, msgs[..i])) && a in {0, 1, 2, 4, 8}
    ensures CompileTypes(t, msgs, align)[i] == CompileType(t, msgs[i], a).0
    ensures Compiled(CompileTypes(t, msgs, align)[i], a)
    decreases |msgs|
  {
    hide CompileMsg, Compiled, CompileType, Sizes, Resolved, ValidFields, Widest;
    if i == 0 {
      a := align;
      NeedsCompiled(t, msgs[0], align);
    } else {
      a := TypeCompiled(t, msgs[1..], CompileType(t, msgs[0], align).1, i - 1);
      LeftBehind(t, msgs[0], align);
      assert msgs[..i][0] == msgs[0] && msgs[..i][1..] == msgs[1..][..i - 1];
    }
  }

  lemma NeedsCompiled(t: seq<Entry>, m: MsgDecl, align: nat)
    requires Sizes(t) && Resolved(t, m.fields) && align in {0, 1, 2, 4, 8}
    ensures Compiled(CompileType(t, m, align).0, align)
  {
    hide CompileMsg, ValidFields, LayFields;
    NeedsOK(t, m.fields);
    var d := CompileType(t, m, align).0;
    assert Needs(d.fields) == Needs(Described0(t, m.fields));
  }

  /** A compiled message differs from the message alone in its scalar size at most, and in that if and only
      if the size it has alone does not fill the alignment. */
  predicate Padded(d: MsgDesc, alone: MsgDesc, align: nat) {
    && d == alone.(ssize := d.ssize) && alone.ssize <= d.ssize
    && (d.ssize == alone.ssize <==> Fills(alone.ssize, alone.psize, align))
  }

  /** What the other messages of a schema do to a message: only the alignment reached in front of it counts. */
  lemma {:induction false} PaddingIff(t: seq<Entry>, msgs: seq<MsgDecl>, i: nat)
    requires Sizes(t) && (forall i :: 0 <= i < |msgs| ==> Resolved(t, msgs[i].fields)) && i < |msgs|
    ensures Padded(CompileTypes(t, msgs, 0)[i], CompileType(t, msgs[i], 0).0, Reached(t, msgs[..i]))
  {
    hide CompileMsg, Compiled, Sizes, Resolved, ValidFields, LayFields, CompileTypes, Reached, Need, Fills;
    var a := TypeCompiled(t, msgs, 0, i);
    NeedsOK(t, msgs[i].fields);
    CarriedIff(Needs(Described0(t, msgs[i].fields)), a);
  }

  // ---------------------------------------------------------------- the compiler, step by step

  /** The scalar parts of the messages fit 16 bits, up to the first message with an unknown type. */
  predicate Small(t: seq<Entry>, msgs: seq<MsgDecl>, align: nat)
    requires Sizes(t) && align in {0, 1, 2, 4, 8}
  {
    msgs == [] || !Resolved(t, msgs[0].fields)
    || (CompileType(t, msgs[0], align).0.ssize < U16 && Small(t, msgs[1..], CompileType(t, msgs[0], align).1))
  }

  /** Whatever the compiler gets to lay out fits 16 bits. */
  predicate Fits16(src: Source) {
    TableSizes(src);
    |Table(src)| <= MAX_TYPES && Distinct(Table(src)) ==> Small(Table(src), src.msgs, 0)
  }

  /** One message: the types of its fields are looked up in the sorted table, its fields laid out. */
  method OutType(a: Allocator, s: seq<Entry>, m: MsgDecl, align: nat, ghost t: seq<Entry>)
    returns (d: Option<MsgDesc>, next: nat)
    requires Sorted(s) && Distinct(s) && multiset(t) == multiset(s)
    requires Sizes(t) && align in {0, 1, 2, 4, 8}
    requires Resolved(t, m.fields) ==> CompileType(t, m, align).0.ssize < U16
    modifies a
    ensures d.Some? <==> Resolved(t, m.fields)
    ensures d.Some? ==> (d.value, next) == CompileType(t, m, align)
  {
    hide CompileMsg, LayFields, Sizes, Compiled, ValidFields, Need, Sorted, Distinct;
    var ents: seq<Entry> := [];
    for n := 0 to |m.fields|
      invariant |ents| == n && forall i :: 0 <= i < n ==> Find(t, m.fields[i].tname) == Some(ents[i])
    {
      var ent := Lookup(s, m.fields[n].tname, t);
      if ent.None? {
        return None, align;
      }
      ents := ents + [ent.value];
    }
    NeedsOK(t, m.fields);
    var needs := seq(|m.fields|, i requires 0 <= i < |m.fields| => Need(Described(m.fields[i], ents[i], 0)));
    assert needs == Needs(Described0(t, m.fields));
    var c;
    c, next := OutMsg(a, needs, align);
    d := Some(MsgDesc(m.name,
                      seq(|m.fields|, i requires 0 <= i < |m.fields| => Described(m.fields[i], ents[i], c.tags[i])),
                      c.ssize, c.psize));
    assert d.value.fields == CompileType(t, m, align).0.fields;
  }

  /** Compiling the messages one after the other, with one allocator and the alignment carried along. */
  method OutMsgs(a: Allocator, s: seq<Entry>, msgs: seq<MsgDecl>, ghost t: seq<Entry>)
    returns (r: Option<seq<MsgDesc>>)
    requires Sorted(s) && Distinct(s) && multiset(t) == multiset(s)
    requires Sizes(t) && Small(t, msgs, 0)
    modifies a
    ensures r.Some? <==> AllResolved(t, msgs)
    ensures r.Some? ==> r.value == CompileTypes(t, msgs, 0)
  {
    hide CompileTypes, CompileType, Sizes, Resolved, Small, Sorted, Distinct;
    var ds: seq<MsgDesc> := [];
    var align, id := 0, 0;
    assert msgs[0..] == msgs;
    while id < |msgs|
      invariant id <= |msgs| && align in {0, 1, 2, 4, 8} && Small(t, msgs[id..], align)
      invariant forall i :: 0 <= i < id ==> Resolved(t, msgs[i].fields)
      invariant AllResolved(t, msgs) ==> ds + CompileTypes(t, msgs[id..], align) == CompileTypes(t, msgs, 0)
    {
      OneType(t, msgs, id, align, ds);
      var d;
      d, align := OutType(a, s, msgs[id], align, t);
      if d.None? {
        return None;
      }
      ds := ds + [d.value];
      id := id + 1;
    }
    if AllResolved(t, msgs) {
      NoTypes(t, msgs[id..], align);
    }
    assert ds + [] == ds;
    r := Some(ds);
  }

  predicate AllResolved(t: seq<Entry>, msgs: seq<MsgDecl>) {
    forall i :: 0 <= i < |msgs| ==> Resolved(t, msgs[i].fields)
  }

  lemma {:induction false} OneType(t: seq<Entry>, msgs: seq<MsgDecl>, id: nat, align: nat, ds: seq<MsgDesc>)
    requires Sizes(t) && align in {0, 1, 2, 4, 8} && id < |msgs| && Small(t, msgs[id..], align)
    ensures var m := msgs[id];
            Resolved(t, m.fields) ==>
              var (d, next) := CompileType(t, m, align);
              && d.ssize < U16 && Small(t, msgs[id + 1..], next)
              && (AllResolved(t, msgs) ==>
                    ds + CompileTypes(t, msgs[id..], align) == (ds + [d]) + CompileTypes(t, msgs[id + 1..], next))
  {
    hide CompileType, Sizes, Resolved;
    assert msgs[id..][0] == msgs[id] && msgs[id..][1..] == msgs[id + 1..];
  }

  lemma NoTypes(t: seq<Entry>, msgs: seq<MsgDecl>, align: nat)
    requires Sizes(t) && align in {0, 1, 2, 4, 8} && msgs == []
    ensures CompileTypes(t, msgs, align) == []
  {
  }

  /** The whole compiler: the table of names is collected, sorted, checked and searched, enums copied and
      messages laid out.  It delivers the compiled schema, or stops where the schema does not compile. */
  method NbufT2b(src: Source) returns (r: Option<Schema>)
    requires Fits16(src)
    ensures r == Compile(src)
  {
    hide CompileTypes, Sizes, Resolved, Sorted, Distinct, Small, Table;
    TableSizes(src);
    var types, ok := MakeLookup(src);
    if !ok {
      return None;
    }
    var sorted := SortTable(types);
    ok := CheckNames(sorted);
    SameDistinct(types, sorted);
    if !ok {
      return None;
    }
    var a := new Allocator();
    var msgs := OutMsgs(a, sorted, src.msgs, types);
    if msgs.None? {
      return None;
    }
    var enums := seq(|src.enums|, i requires 0 <= i < |src.enums| => EnumType(src.enums[i].name, src.enums[i].values));
    r := Some(Schema(src.pkg, enums, msgs.value));
  }

  lemma {:induction false} SameDistinct(t: seq<Entry>, s: seq<Entry>)
    requires multiset(t) == multiset(s)
    ensures Distinct(s) <==> Distinct(t)
  {
    hide Distinct;
    if Distinct(s) {
      DistinctPermuted(t, s);
    }
    if Distinct(t) {
      DistinctPermuted(s, t);
    }
  }
}
