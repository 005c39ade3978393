/** The text format of messages: what the printer writes (lib/print.c) for a message given as a value. */
module Texts {
  import opened Bytes
  import opened Lexer
  import opened Tokens
  import opened Schemas
  import opened Views

  const TRUE: seq<byte> := [116, 114, 117, 101]
  const FALSE: seq<byte> := [102, 97, 108, 115, 101]

  /** Indentation; none if the amount is negative. */
  function Spaces(n: int): (s: seq<byte>)
    ensures forall i :: 0 <= i < |s| ==> s[i] == SPACE
  {
    if n <= 0 then [] else seq(n, i => SPACE)
  }

  /** What ends an item: a new line, or a space if the increment is negative. */
  function Break(inc: int): (b: byte)
    ensures IsSpace(b)
  {
    if inc >= 0 then NL else SPACE
  }

  /** The fields of a message from field i on. */
  function TextFrom(S: Schema, fields: seq<FieldDesc>, m: Msg, i: nat, ind: int, inc: int): seq<byte>
    requires i <= |fields| == |m|
    decreases m, 3, |m| - i
  {
    if i == |m| then []
    else TextItems(S, fields[i], m[i].s, 0, ind, inc) + TextFrom(S, fields, m, i + 1, ind, inc)
  }

  /** The items of one field from item j on. */
  function TextItems(S: Schema, f: FieldDesc, vs: seq<Val>, j: nat, ind: int, inc: int): seq<byte>
    requires j <= |vs|
    decreases vs, 2, |vs| - j
  {
    if j == |vs| then []
    else TextItem(S, f, vs[j], ind, inc) + TextItems(S, f, vs, j + 1, ind, inc)
  }

  function TextItem(S: Schema, f: FieldDesc, v: Val, ind: int, inc: int): seq<byte>
    decreases v, 1
  {
    Spaces(ind) + f.name + (if f.kind == PTR then [SPACE] else [COLON, SPACE])
    + TextVal(S, f, v, ind, inc) + [Break(inc)]
  }

  function TextVal(S: Schema, f: FieldDesc, v: Val, ind: int, inc: int): seq<byte>
    decreases v, 0
  {
    match v
    case VBool(b) => if b then TRUE else FALSE
    case VInt(n) =>
      if f.kind == ENUM && f.tag1 < |S.enums| && n >= 0 then
        var name := EnumName(S.enums[f.tag1].values, n);
        if name.Some? then name.value else DecInt(n)
      else DecInt(n)
    case VStr(s) => Dump(s)
    case VMsg(m) =>
      if f.tag1 < |S.msgs| && |m| == |S.msgs[f.tag1].fields| then
        [OPEN, Break(inc)] + TextFrom(S, S.msgs[f.tag1].fields, m, 0, ind + inc, inc) + Spaces(ind) + [CLOSE]
      else []
  }

  /** The text of a whole message. */
  function Text(S: Schema, mi: nat, m: Msg, inc: int): seq<byte>
    requires mi < |S.msgs| && |m| == |S.msgs[mi].fields|
  {
    TextFrom(S, S.msgs[mi].fields, m, 0, 0, inc)
  }
}
