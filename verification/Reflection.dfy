/** Look-ups in a compiled schema, by linear search (lib/refl.c). */
module Reflection {
  import opened Bytes
  import S = Schemas

  method FindField(fields: seq<S.FieldDesc>, name: seq<byte>) returns (r: S.Option<nat>)
    ensures r == S.FindField(fields, name)
  {
    var i := 0;
    while i < |fields|
      invariant i <= |fields| && forall j :: 0 <= j < i ==> fields[j].name != name
    {
      if fields[i].name == name {
        return S.Some(i);
      }
      i := i + 1;
    }
    r := S.None;
  }

  method EnumName(values: seq<S.EnumDesc>, v: nat) returns (r: S.Option<seq<byte>>)
    ensures r == S.EnumName(values, v)
  {
    var i := 0;
    assert values[0..] == values;
    while i < |values|
      invariant i <= |values| && S.EnumName(values[i..], v) == S.EnumName(values, v)
    {
      assert values[i..][1..] == values[i + 1..];
      if values[i].value == v {
        return S.Some(values[i].name);
      }
      i := i + 1;
    }
    r := S.None;
  }

  method EnumValue(values: seq<S.EnumDesc>, name: seq<byte>) returns (r: S.Option<nat>)
    ensures r == S.EnumValue(values, name)
  {
    var i := 0;
    assert values[0..] == values;
    while i < |values|
      invariant i <= |values| && S.EnumValue(values[i..], name) == S.EnumValue(values, name)
    {
      assert values[i..][1..] == values[i + 1..];
      if values[i].name == name {
        return S.Some(values[i].value);
      }
      i := i + 1;
    }
    r := S.None;
  }
}
