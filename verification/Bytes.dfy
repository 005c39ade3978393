/** Bytes and little-endian integers, as read and written by the memory accesses
    of the wire format. */
module Bytes {

  type byte = b: int | 0 <= b < 256

  /** The bytes of a text of ASCII characters. */
  function Ascii(s: string): (b: seq<byte>)
    ensures |b| == |s|
  {
    seq(|s|, i requires 0 <= i < |s| => s[i] as int % 256)
  }

  /** 256 to the power n. */
  function Pow256(n: nat): (p: nat)
    ensures p > 0
  {
    if n == 0 then 1 else 256 * Pow256(n - 1)
  }

  /** The low n bytes of the two's complement representation of v, least significant first.
      Euclidean division by 256 rounds towards minus infinity, so negative values come out right. */
  function LE(v: int, n: nat): (s: seq<byte>)
    ensures |s| == n
    decreases n, v
  {
    if n == 0 then [] else [v % 256] + LE(v / 256, n - 1)
  }

  /** Byte i is the one of weight 256 to the power i. */
  lemma {:induction false} ByteOfLE(v: nat, n: nat, i: nat)
    requires i < n
    ensures LE(v, n)[i] == v / Pow256(i) % 256
  {
    if i > 0 {
      ByteOfLE(v / 256, n - 1, i - 1);
      DivTwice(v, Pow256(i - 1));
    }
  }

  lemma DivTwice(v: nat, p: nat)
    requires p > 0
    ensures v / 256 / p == v / (256 * p)
  {
    var q, r := v / 256 / p, v / 256 % p;
    assert v / 256 == q * p + r;
    assert v == q * (256 * p) + (256 * r + v % 256) by { assert 256 * (q * p) == q * (256 * p); }
    ModUnique(v, 256 * p, q, 256 * r + v % 256);
  }

  /** The unsigned value of a little-endian byte string. */
  function UnLE(s: seq<byte>): (v: nat)
  {
    if s == [] then 0 else s[0] + 256 * UnLE(s[1..])
  }

  /** The value of an n-byte word read as a signed integer. */
  function Signed(u: nat, n: nat): int {
    if 2 * u < Pow256(n) then u else u - Pow256(n)
  }

  function Zeros(n: nat): (s: seq<byte>)
    ensures |s| == n
    ensures forall i :: 0 <= i < n ==> s[i] == 0
  {
    seq(n, i => 0)
  }

  /** Overwrites the bytes of s from position a on with w. */
  function Splice(s: seq<byte>, a: nat, w: seq<byte>): (r: seq<byte>)
    requires a + |w| <= |s|
    ensures |r| == |s|
  {
    s[..a] + w + s[a + |w|..]
  }

  lemma SpliceAt(s: seq<byte>, a: nat, w: seq<byte>)
    requires a + |w| <= |s|
    ensures forall x :: 0 <= x < |s| ==> Splice(s, a, w)[x] == if a <= x < a + |w| then w[x - a] else s[x]
  {
  }

  lemma SpliceLeft(s: seq<byte>, t: seq<byte>, a: nat, w: seq<byte>)
    requires a + |w| <= |s|
    ensures Splice(s + t, a, w) == Splice(s, a, w) + t
  {
  }

  lemma SpliceRight(s: seq<byte>, t: seq<byte>, a: nat, w: seq<byte>)
    requires a + |w| <= |t|
    ensures Splice(s + t, |s| + a, w) == s + Splice(t, a, w)
  {
  }

  lemma {:induction false} UnLEBound(s: seq<byte>)
    ensures UnLE(s) < Pow256(|s|)
  {
    if s != [] {
      UnLEBound(s[1..]);
    }
  }

  /** Decoding the low n bytes of v gives v modulo 256^n. */
  lemma {:induction false} UnLEofLE(v: int, n: nat)
    ensures UnLE(LE(v, n)) == v % Pow256(n)
    decreases n
  {
    if n > 0 {
      UnLEofLE(v / 256, n - 1);
      var p := Pow256(n - 1);
      assert LE(v, n)[1..] == LE(v / 256, n - 1);
      ModSplit(v, p);
    }
  }

  lemma ModSplit(v: int, p: nat)
    requires p > 0
    ensures v % 256 + 256 * ((v / 256) % p) == v % (256 * p)
  {
    var q := v / 256;
    var r := v % 256;
    var a := q / p;
    var b := q % p;
    assert v == (a * p + b) * 256 + r;
    assert (a * p) * 256 == a * (256 * p) by { Assoc(a, p); }
    assert v == a * (256 * p) + (256 * b + r);
    ModUnique(v, 256 * p, a, 256 * b + r);
  }

  lemma Assoc(a: int, p: int)
    ensures (a * p) * 256 == a * (256 * p)
  {
  }

  /** Quotient and remainder are determined by v == q * m + r. */
  lemma ModUnique(v: int, m: int, q: int, r: int)
    requires m > 0 && v == q * m + r && 0 <= r < m
    ensures v % m == r && v / m == q
  {
    var d := v / m - q;
    assert v == (v / m) * m + v % m;
    assert d * m == r - v % m by {
      assert (v / m - q) * m == (v / m) * m - q * m;
    }
    AwayFromZero(d, m);
  }

  lemma AwayFromZero(d: int, m: int)
    requires m > 0
    ensures d >= 1 ==> d * m >= m
    ensures d <= -1 ==> d * m <= -m
  {
    if d >= 1 {
      assert (d - 1) * m >= 0;
    } else if d <= -1 {
      assert (-d - 1) * m >= 0;
    }
  }

  /** Encoding the decoded value gives the bytes back. */
  lemma {:induction false} LEofUnLE(s: seq<byte>)
    ensures LE(UnLE(s), |s|) == s
  {
    if s != [] {
      LEofUnLE(s[1..]);
      var v := UnLE(s);
      assert v % 256 == s[0] && v / 256 == UnLE(s[1..]);
      assert s == [s[0]] + s[1..];
    }
  }

  lemma Pow256Values()
    ensures Pow256(1) == 0x100 && Pow256(2) == 0x1_0000 && Pow256(4) == 0x1_0000_0000
    ensures Pow256(8) == 0x1_0000_0000_0000_0000
  {
    assert Pow256(0) == 1;
    assert Pow256(1) == 0x100;
    assert Pow256(2) == 0x1_0000;
    assert Pow256(3) == 0x100_0000;
    assert Pow256(4) == 0x1_0000_0000;
    assert Pow256(5) == 0x100_0000_0000;
    assert Pow256(6) == 0x1_0000_0000_0000;
    assert Pow256(7) == 0x100_0000_0000_0000;
  }

  lemma {:induction false} ZerosDecode(n: nat)
    ensures UnLE(Zeros(n)) == 0 && LE(0, n) == Zeros(n)
  {
    if n > 0 {
      ZerosDecode(n - 1);
      assert Zeros(n)[1..] == Zeros(n - 1);
      assert LE(0, n) == [0] + LE(0, n - 1);
      assert Zeros(n) == [0] + Zeros(n - 1);
    }
  }
}
