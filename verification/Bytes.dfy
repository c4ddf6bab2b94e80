// Octets, octet strings, exclusive-or, and the little-endian reading of an octet string.
module Bytes {
  newtype byte = b: int | 0 <= b < 256

  const SIZE_MAX: nat := 0xFFFF_FFFF_FFFF_FFFF
  const INT_MAX: nat := 0x7FFF_FFFF

  function Min(a: nat, b: nat): nat {
    if a < b then a else b
  }

  // ---------------------------------------------------------------- exclusive-or of octets

  function Pow2(n: nat): (p: nat)
    ensures p > 0
  {
    if n == 0 then 1 else 2 * Pow2(n - 1)
  }

  // The low n bits of a and b, added without carry.
  function XorBits(n: nat, a: nat, b: nat): (r: nat)
    ensures r < Pow2(n)
  {
    if n == 0 then 0 else (if a % 2 == b % 2 then 0 else 1) + 2 * XorBits(n - 1, a / 2, b / 2)
  }

  lemma {:induction false} XorBitsCancel(n: nat, a: nat, b: nat)
    requires a < Pow2(n)
    ensures XorBits(n, XorBits(n, a, b), b) == a
  {
    if n > 0 {
      XorBitsStep(n, a, b);
      XorBitsCancel(n - 1, a / 2, b / 2);
    }
  }

  lemma {:induction false} XorBitsCommutes(n: nat, a: nat, b: nat)
    ensures XorBits(n, a, b) == XorBits(n, b, a)
  {
    if n > 0 {
      XorBitsCommutes(n - 1, a / 2, b / 2);
    }
  }

  lemma XorBitsStep(n: nat, a: nat, b: nat)
    requires n > 0
    ensures XorBits(n, a, b) % 2 == if a % 2 == b % 2 then 0 else 1
    ensures XorBits(n, a, b) / 2 == XorBits(n - 1, a / 2, b / 2)
  {
  }

  function Xor(a: byte, b: byte): byte {
    assert Pow2(8) == 256;
    XorBits(8, a as nat, b as nat) as byte
  }

  lemma XorCancel(a: byte, b: byte)
    ensures Xor(Xor(a, b), b) == a
    ensures Xor(b, Xor(b, a)) == a
  {
    assert Pow2(8) == 256;
    XorBitsCancel(8, a as nat, b as nat);
    XorCommutes(a, b);
    XorCommutes(b, Xor(b, a));
  }

  lemma XorCommutes(a: byte, b: byte)
    ensures Xor(a, b) == Xor(b, a)
  {
    XorBitsCommutes(8, a as nat, b as nat);
  }

  // Bit n of a number, the lowest being bit 0.
  function Bit(value: nat, n: nat): (b: nat)
    ensures b < 2
  {
    if n == 0 then value % 2 else Bit(value / 2, n - 1)
  }

  lemma {:induction false} XorBitsAt(width: nat, a: nat, b: nat, n: nat)
    requires n < width
    ensures Bit(XorBits(width, a, b), n) == (Bit(a, n) + Bit(b, n)) % 2
    decreases n
  {
    XorBitsStep(width, a, b);
    if n > 0 {
      XorBitsAt(width - 1, a / 2, b / 2, n - 1);
    }
  }

  // Each of the eight bits is the sum of the two modulo 2.
  lemma XorByBit(a: byte, b: byte, n: nat)
    requires n < 8
    ensures Bit(Xor(a, b) as nat, n) == (Bit(a as nat, n) + Bit(b as nat, n)) % 2
  {
    XorBitsAt(8, a as nat, b as nat, n);
  }

  // ---------------------------------------------------------------- octet strings

  function Zeros(n: nat): (s: seq<byte>)
    ensures |s| == n
  {
    seq(n, _ => 0)
  }

  // The octets of a text of ASCII characters.
  function Ascii(text: string): (s: seq<byte>)
    requires forall i :: 0 <= i < |text| ==> text[i] as int < 128
    ensures |s| == |text|
  {
    seq(|text|, i requires 0 <= i < |text| => text[i] as byte)
  }

  // s extended with zero octets up to length n.
  function ZeroPad(s: seq<byte>, n: nat): (r: seq<byte>)
    requires |s| <= n
    ensures |r| == n && r[..|s|] == s
  {
    s + Zeros(n - |s|)
  }

  function XorBytes(a: seq<byte>, b: seq<byte>): (r: seq<byte>)
    requires |a| == |b|
    ensures |r| == |a|
    ensures forall i :: 0 <= i < |a| ==> r[i] == Xor(a[i], b[i])
  {
    seq(|a|, i requires 0 <= i < |a| => Xor(a[i], b[i]))
  }

  lemma XorBytesCancel(a: seq<byte>, b: seq<byte>)
    requires |a| == |b|
    ensures XorBytes(XorBytes(a, b), b) == a
    ensures XorBytes(b, XorBytes(b, a)) == a
  {
    forall i | 0 <= i < |a|
      ensures Xor(Xor(a[i], b[i]), b[i]) == a[i] && Xor(b[i], Xor(b[i], a[i])) == a[i]
    {
      XorCancel(a[i], b[i]);
    }
  }

  function Complement(s: seq<byte>): (r: seq<byte>)
    ensures |r| == |s|
    ensures forall i :: 0 <= i < |s| ==> r[i] == 255 - s[i]
  {
    seq(|s|, i requires 0 <= i < |s| => 255 - s[i])
  }

  lemma AppendAssociates(a: seq<byte>, b: seq<byte>, c: seq<byte>)
    ensures (a + b) + c == a + (b + c)
  {
  }

  lemma AppendNothing(a: seq<byte>)
    ensures a + [] == a && [] + a == a
  {
  }

  lemma SameOctets(a: seq<byte>, b: seq<byte>)
    requires |a| == |b| && forall i :: 0 <= i < |a| ==> a[i] == b[i]
    ensures a == b
  {
  }

  predicate EndsWith(s: seq<byte>, end: seq<byte>) {
    |end| <= |s| && s[|s| - |end|..] == end
  }

  lemma SumEndsWith(a: seq<byte>, b: seq<byte>)
    ensures EndsWith(a + b, b)
  {
  }

  lemma EndsWithEnd(s: seq<byte>, t: seq<byte>, end: seq<byte>)
    requires EndsWith(s, t) && EndsWith(t, end)
    ensures EndsWith(s, end)
  {
    assert s[|s| - |end|..] == s[|s| - |t|..][|t| - |end|..];
  }

  function Concat(pieces: seq<seq<byte>>): seq<byte> {
    if pieces == [] then [] else pieces[0] + Concat(pieces[1..])
  }

  lemma {:induction false} ConcatSnoc(pieces: seq<seq<byte>>, last: seq<byte>)
    ensures Concat(pieces + [last]) == Concat(pieces) + last
  {
    if pieces == [] {
      assert [last][1..] == [];
      assert Concat([last]) == last + [];
    } else {
      assert (pieces + [last])[1..] == pieces[1..] + [last];
      ConcatSnoc(pieces[1..], last);
    }
  }

  lemma SumsSplit(a: seq<byte>, b: seq<byte>, c: seq<byte>, d: seq<byte>)
    requires a + b == c + d && |a| == |c|
    ensures a == c && b == d
  {
    assert a == (a + b)[..|a|] && b == (a + b)[|a|..];
    assert c == (c + d)[..|c|] && d == (c + d)[|c|..];
  }

  // ---------------------------------------------------------------- little-endian numbers

  function Pow256(n: nat): (p: nat)
    ensures p > 0
  {
    if n == 0 then 1 else 256 * Pow256(n - 1)
  }

  function LeValue(s: seq<byte>): nat {
    if s == [] then 0 else s[0] as nat + 256 * LeValue(s[1..])
  }

  function LeBytes(value: nat, n: nat): (s: seq<byte>)
    ensures |s| == n
  {
    if n == 0 then [] else [(value % 256) as byte] + LeBytes(value / 256, n - 1)
  }

  lemma {:induction false} LeValueBound(s: seq<byte>)
    ensures LeValue(s) < Pow256(|s|)
  {
    if s != [] {
      LeValueBound(s[1..]);
    }
  }

  lemma {:induction false} LeBytesOfValue(s: seq<byte>)
    ensures LeBytes(LeValue(s), |s|) == s
  {
    if s != [] {
      LeBytesOfValue(s[1..]);
      DivModUnique(LeValue(s), 256, LeValue(s[1..]), s[0] as nat);
    }
  }

  lemma {:induction false} LeValueOfBytes(value: nat, n: nat)
    ensures LeValue(LeBytes(value, n)) == value % Pow256(n)
  {
    if n > 0 {
      LeValueOfBytes(value / 256, n - 1);
      ModSplit(value, Pow256(n - 1));
    }
  }

  lemma ModSplit(value: nat, p: nat)
    requires p > 0
    ensures value % (256 * p) == value % 256 + 256 * ((value / 256) % p)
  {
    var q := value / 256;
    var k := q / p;
    assert value == 256 * q + value % 256;
    assert q == k * p + q % p;
    var r := value % 256 + 256 * (q % p);
    assert value == k * (256 * p) + r;
    assert 0 <= r < 256 * p;
    DivModUnique(value, 256 * p, k, r);
  }

  lemma DivModUnique(value: int, m: int, k: int, r: int)
    requires m > 0 && 0 <= r < m && value == k * m + r
    ensures value % m == r && value / m == k
  {
    var d := value / m - k;
    assert m * d + value % m - r == 0;
    assert d >= 1 ==> m * d >= m;
    assert d <= -1 ==> m * d <= -m;
  }

  lemma LeBytesModulo(value: nat, n: nat)
    ensures LeBytes(value % Pow256(n), n) == LeBytes(value, n)
  {
    LeValueOfBytes(value, n);
    LeBytesOfValue(LeBytes(value, n));
  }

  // ---------------------------------------------------------------- counters

  // The next little-endian counter of the same length, without carry out of it.
  function Increment(s: seq<byte>): (r: seq<byte>)
    ensures |r| == |s|
  {
    LeBytes(LeValue(s) + 1, |s|)
  }

  function CounterAt(iv: seq<byte>, n: nat): (s: seq<byte>)
    ensures |s| == |iv|
  {
    if n == 0 then iv else Increment(CounterAt(iv, n - 1))
  }

  lemma {:induction false} CounterAtIsSum(iv: seq<byte>, n: nat)
    ensures CounterAt(iv, n) == LeBytes(LeValue(iv) + n, |iv|)
  {
    if n == 0 {
      LeBytesOfValue(iv);
    } else {
      CounterAtIsSum(iv, n - 1);
      IncrementAfter(LeValue(iv) + n - 1, |iv|);
    }
  }

  // The counter's value is the value it started from plus n, modulo 256 to its length: modulo
  // 2^256 for the 32 octets it has here.
  lemma CounterAtValue(iv: seq<byte>, n: nat)
    ensures LeValue(CounterAt(iv, n)) == (LeValue(iv) + n) % Pow256(|iv|)
  {
    CounterAtIsSum(iv, n);
    LeValueOfBytes(LeValue(iv) + n, |iv|);
  }

  lemma IncrementAfter(value: nat, n: nat)
    ensures Increment(LeBytes(value, n)) == LeBytes(value + 1, n)
  {
    var m := Pow256(n);
    LeValueOfBytes(value, n);
    LeBytesModulo(value % m + 1, n);
    LeBytesModulo(value + 1, n);
    ModSuccessor(value, m);
  }

  lemma ModSuccessor(value: nat, m: nat)
    requires m > 0
    ensures (value % m + 1) % m == (value + 1) % m
  {
    var k, a := value / m, value % m + 1;
    var d := a / m;
    assert a == d * m + a % m;
    assert value + 1 == k * m + a;
    assert (k + d) * m == k * m + d * m;
    DivModUnique(value + 1, m, k + d, a % m);
  }
}
