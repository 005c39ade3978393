/** The schema compiler's table of type names (nbufc/t2b.c): built-in types, enums and messages, sorted by
    name, checked for duplicates, and searched by name. */
module Names {
  import opened Bytes
  import opened Schemas

  /** A schema as the grammar delivers it. */
  datatype EnumDecl = EnumDecl(name: seq<byte>, values: seq<EnumDesc>)
  datatype FieldDecl = FieldDecl(name: seq<byte>, tname: seq<byte>, list: bool)
  datatype MsgDecl = MsgDecl(name: seq<byte>, fields: seq<FieldDecl>)
  datatype Source = Source(pkg: seq<byte>, enums: seq<EnumDecl>, msgs: seq<MsgDecl>)

  /** A type: its kind, its size as a field, and its index among the declarations of its kind. */
  datatype Entry = Entry(name: seq<byte>, kind: Kind, size: nat, id: nat)

  const T_BOOL: seq<byte> := [98, 111, 111, 108]
  const T_INT: seq<byte> := [105, 110, 116]
  const T_UINT: seq<byte> := [117, 105, 110, 116]
  const T_FLOAT: seq<byte> := [102, 108, 111, 97, 116]
  const T_DOUBLE: seq<byte> := [100, 111, 117, 98, 108, 101]
  const T_STRING: seq<byte> := [115, 116, 114, 105, 110, 103]

  const BUILTINS: seq<Entry> := [
    Entry(T_BOOL, BOOL, 0, 0),
    Entry(T_INT + [56], INT, 1, 0),
    Entry(T_INT + [49, 54], INT, 2, 0),
    Entry(T_INT + [51, 50], INT, 4, 0),
    Entry(T_INT + [54, 52], INT, 8, 0),
    Entry(T_UINT + [56], UINT, 1, 0),
    Entry(T_UINT + [49, 54], UINT, 2, 0),
    Entry(T_UINT + [51, 50], UINT, 4, 0),
    Entry(T_UINT + [54, 52], UINT, 8, 0),
    Entry(T_FLOAT, FLOAT, 4, 0),
    Entry(T_DOUBLE, FLOAT, 8, 0),
    Entry(T_STRING, STR, 1, 0)
  ]

  const MAX_TYPES := 8192

  /** The table before sorting. */
  function Table(src: Source): (t: seq<Entry>)
    ensures |t| == 12 + |src.enums| + |src.msgs|
    ensures forall i :: 0 <= i < 12 ==> t[i] == BUILTINS[i]
    ensures forall i :: 0 <= i < |src.enums| ==> t[12 + i] == Entry(src.enums[i].name, ENUM, 2, i)
    ensures forall i :: 0 <= i < |src.msgs| ==> t[12 + |src.enums| + i] == Entry(src.msgs[i].name, PTR, 4, i)
  {
    BUILTINS
    + seq(|src.enums|, i requires 0 <= i < |src.enums| => Entry(src.enums[i].name, ENUM, 2, i))
    + seq(|src.msgs|, i requires 0 <= i < |src.msgs| => Entry(src.msgs[i].name, PTR, 4, i))
  }

  /** No two entries have the same name. */
  predicate Distinct(t: seq<Entry>) {
    forall i, j :: 0 <= i < j < |t| ==> t[i].name != t[j].name
  }

  /** The first entry of that name. */
  function Find(t: seq<Entry>, name: seq<byte>): (r: Option<Entry>)
    ensures r.Some? ==> r.value in t && r.value.name == name
    ensures r.None? ==> forall i :: 0 <= i < |t| ==> t[i].name != name
  {
    if t == [] then None else if t[0].name == name then Some(t[0]) else Find(t[1..], name)
  }

  lemma FindAt(t: seq<Entry>, i: nat)
    requires Distinct(t) && i < |t|
    ensures Find(t, t[i].name) == Some(t[i])
  {
    var r := Find(t, t[i].name);
    var j :| 0 <= j < |t| && t[j] == r.value;
  }

  // ---------------------------------------------------------------- sorting and searching

  /** The order of strings by their bytes. */
  predicate Less(a: seq<byte>, b: seq<byte>) {
    if b == [] then false
    else if a == [] then true
    else if a[0] != b[0] then a[0] < b[0]
    else Less(a[1..], b[1..])
  }

  lemma {:induction false} LessTotal(a: seq<byte>, b: seq<byte>)
    ensures a == b <==> !Less(a, b) && !Less(b, a)
    ensures !(Less(a, b) && Less(b, a))
  {
    if a != [] && b != [] && a[0] == b[0] {
      LessTotal(a[1..], b[1..]);
      assert a == [a[0]] + a[1..] && b == [b[0]] + b[1..];
    }
  }

  lemma {:induction false} LessTrans(a: seq<byte>, b: seq<byte>, c: seq<byte>)
    requires Less(a, b) && Less(b, c)
    ensures Less(a, c)
  {
    if a != [] && a[0] == b[0] && b[0] == c[0] {
      LessTrans(a[1..], b[1..], c[1..]);
    }
  }

  /** No name is behind a greater one: what sorting achieves. */
  predicate Sorted(t: seq<Entry>) {
    forall i :: 0 <= i < |t| - 1 ==> !Less(t[i + 1].name, t[i].name)
  }

  /** Then two entries of the same name exist only if two adjacent ones do, and without them names grow. */
  lemma {:induction false} SortedGrows(t: seq<Entry>, i: nat, j: nat)
    requires Sorted(t) && i < j < |t|
    requires forall n :: 0 <= n < |t| - 1 ==> t[n].name != t[n + 1].name
    ensures Less(t[i].name, t[j].name)
    decreases j
  {
    LessTotal(t[j - 1].name, t[j].name);
    if i < j - 1 {
      SortedGrows(t, i, j - 1);
      LessTrans(t[i].name, t[j - 1].name, t[j].name);
    }
  }

  /** The check of adjacent names is a check of all names. */
  lemma AdjacentSuffices(t: seq<Entry>)
    requires Sorted(t)
    ensures (forall n :: 0 <= n < |t| - 1 ==> t[n].name != t[n + 1].name) <==> Distinct(t)
  {
    if forall n :: 0 <= n < |t| - 1 ==> t[n].name != t[n + 1].name {
      forall i, j | 0 <= i < j < |t|
        ensures t[i].name != t[j].name
      {
        SortedGrows(t, i, j);
        LessTotal(t[i].name, t[j].name);
      }
    }
  }

  lemma Occurs(t: seq<Entry>, s: seq<Entry>, i: nat) returns (j: nat)
    requires multiset(t) == multiset(s) && i < |t|
    ensures j < |s| && s[j] == t[i]
  {
    assert t[i] in multiset(s);
    j :| 0 <= j < |s| && s[j] == t[i];
  }

  /** Sorting does not change whether names are distinct. */
  lemma DistinctPermuted(t: seq<Entry>, s: seq<Entry>)
    requires multiset(t) == multiset(s) && Distinct(s)
    ensures Distinct(t)
  {
    forall i, j | 0 <= i < j < |t|
      ensures t[i].name != t[j].name
    {
      var a := Occurs(t, s, i);
      var b := Occurs(t, s, j);
      if a == b {
        TwiceInOne(t, s, i, j, a);
      }
    }
  }

  lemma TwiceInOne(t: seq<Entry>, s: seq<Entry>, i: nat, j: nat, a: nat)
    requires multiset(t) == multiset(s) && i < j < |t| && t[i] == t[j] && a < |s| && s[a] == t[i]
    ensures !Distinct(s)
  {
    CountTwice(t, i, j);
    var b := OccursAgain(s, a);
    assert s[if a < b then a else b].name == s[if a < b then b else a].name;
  }

  lemma CountTwice(t: seq<Entry>, i: nat, j: nat)
    requires i < j < |t| && t[i] == t[j]
    ensures multiset(t)[t[i]] >= 2
  {
    assert t == t[..i] + [t[i]] + t[i + 1..j] + [t[i]] + t[j + 1..];
  }

  lemma OccursAgain(s: seq<Entry>, a: nat) returns (b: nat)
    requires a < |s| && multiset(s)[s[a]] >= 2
    ensures b < |s| && b != a && s[b] == s[a]
  {
    var x := s[a];
    assert s == s[..a] + [x] + s[a + 1..];
    assert x in multiset(s[..a]) || x in multiset(s[a + 1..]);
    if x in s[..a] {
      b :| 0 <= b < a && s[b] == x;
    } else {
      var c :| 0 <= c < |s[a + 1..]| && s[a + 1..][c] == x;
      b := a + 1 + c;
    }
  }

  /** The sorted table answers every question like the table of the declarations: if the check passes,
      whatever entry of the sorted table carries a name is the one declared under it. */
  lemma TableAnswers(t: seq<Entry>, s: seq<Entry>, i: nat)
    requires multiset(t) == multiset(s) && Sorted(s) && i < |s|
    requires forall n :: 0 <= n < |s| - 1 ==> s[n].name != s[n + 1].name
    ensures Distinct(t) && Find(t, s[i].name) == Some(s[i])
  {
    AdjacentSuffices(s);
    DistinctPermuted(t, s);
    var j := Occurs(s, t, i);
    FindAt(t, j);
  }

  /** If the check fails, a name was declared twice. */
  lemma TableRefuses(t: seq<Entry>, s: seq<Entry>)
    requires multiset(t) == multiset(s) && Sorted(s)
    requires !(forall n :: 0 <= n < |s| - 1 ==> s[n].name != s[n + 1].name)
    ensures !Distinct(t)
  {
    AdjacentSuffices(s);
    if Distinct(t) {
      DistinctPermuted(s, t);
    }
  }

  /** A sorted permutation, as the library's sorting function delivers it. */
  function SortTable(t: seq<Entry>): (s: seq<Entry>)
    ensures Sorted(s) && multiset(s) == multiset(t)
  {
    if t == [] then []
    else
      assert t == t[..|t| - 1] + [t[|t| - 1]];
      Insert(SortTable(t[..|t| - 1]), t[|t| - 1])
  }

  function Insert(s: seq<Entry>, e: Entry): (r: seq<Entry>)
    requires Sorted(s)
    ensures Sorted(r) && multiset(r) == multiset(s) + multiset{e}
    ensures |r| == |s| + 1 && (r[|s|] == e || (s != [] && r[|s|] == s[|s| - 1]))
  {
    if s == [] then [e]
    else
      var n := |s| - 1;
      assert s == s[..n] + [s[n]];
      LessTotal(e.name, s[n].name);
      if Less(e.name, s[n].name) then Insert(s[..n], e) + [s[n]] else s + [e]
  }

  /** The compiler's pass over the sorted table. */
  method CheckNames(s: seq<Entry>) returns (ok: bool)
    requires Sorted(s)
    ensures ok <==> Distinct(s)
  {
    AdjacentSuffices(s);
    ok := true;
    var id := 1;
    while id < |s|
      invariant 1 <= id
      invariant forall n :: 0 <= n < id - 1 && n < |s| - 1 ==> s[n].name != s[n + 1].name
    {
      if s[id - 1].name == s[id].name {
        return false;
      }
      id := id + 1;
    }
  }

  /** The compiler collects the names of all declarations behind the built-in ones. */
  method MakeLookup(src: Source) returns (types: seq<Entry>, ok: bool)
    ensures ok <==> |Table(src)| <= MAX_TYPES
    ensures ok ==> types == Table(src)
  {
    hide Table;
    types := BUILTINS;
    var id := 0;
    while id < |src.enums|
      invariant id <= |src.enums| && |types| == 12 + id <= MAX_TYPES
      invariant forall i :: 0 <= i < |types| ==> types[i] == Table(src)[i]
    {
      if |types| == MAX_TYPES {
        return types, false;
      }
      types := types + [Entry(src.enums[id].name, ENUM, 2, id)];
      id := id + 1;
    }
    id := 0;
    while id < |src.msgs|
      invariant id <= |src.msgs| && |types| == 12 + |src.enums| + id <= MAX_TYPES
      invariant forall i :: 0 <= i < |types| ==> types[i] == Table(src)[i]
    {
      if |types| == MAX_TYPES {
        return types, false;
      }
      types := types + [Entry(src.msgs[id].name, PTR, 4, id)];
      id := id + 1;
    }
    ok := true;
  }

  /** Searching the sorted table gives what was declared under the name, or nothing if nothing was. */
  method Lookup(s: seq<Entry>, key: seq<byte>, ghost t: seq<Entry>) returns (r: Option<Entry>)
    requires Sorted(s) && Distinct(s) && multiset(t) == multiset(s)
    ensures r == Find(t, key)
  {
    hide Sorted, Less, Find;
    var lo, hi := 0, |s|;
    while lo < hi
      invariant lo <= hi <= |s|
      invariant forall i :: 0 <= i < lo || hi <= i < |s| ==> s[i].name != key
    {
      var mid := (lo + hi) / 2;
      if s[mid].name == key {
        Answer(t, s, mid);
        return Some(s[mid]);
      }
      HalfTable(s, mid, key);
      if Less(key, s[mid].name) {
        hi := mid;
      } else {
        lo := mid + 1;
      }
    }
    NoAnswer(t, s, key);
    r := None;
  }

  lemma Answer(t: seq<Entry>, s: seq<Entry>, i: nat)
    requires multiset(t) == multiset(s) && Sorted(s) && Distinct(s) && i < |s|
    ensures Find(t, s[i].name) == Some(s[i])
  {
    hide Find, Sorted;
    TableAnswers(t, s, i);
  }

  lemma NoAnswer(t: seq<Entry>, s: seq<Entry>, key: seq<byte>)
    requires multiset(t) == multiset(s) && forall i :: 0 <= i < |s| ==> s[i].name != key
    ensures Find(t, key) == None
  {
    var r := Find(t, key);
    if r.Some? {
      var i :| 0 <= i < |t| && t[i] == r.value;
      var j := Occurs(t, s, i);
    }
  }

  /** The half of the table that the search leaves aside does not hold the name. */
  lemma HalfTable(s: seq<Entry>, mid: nat, key: seq<byte>)
    requires Sorted(s) && Distinct(s) && mid < |s| && s[mid].name != key
    ensures Less(key, s[mid].name) ==> forall i :: mid <= i < |s| ==> s[i].name != key
    ensures !Less(key, s[mid].name) ==> forall i :: 0 <= i <= mid ==> s[i].name != key
  {
    hide Less, Sorted;
    LessTotal(key, s[mid].name);
    forall i | 0 <= i < |s| && s[i].name == key
      ensures if Less(key, s[mid].name) then i < mid else i > mid
    {
      if i < mid {
        SortedGrows(s, i, mid);
      } else if mid < i {
        SortedGrows(s, mid, i);
      }
    }
  }
}
