// Whole numbers as octet strings: big-endian form, length in octets and bits, and the fixed-length
// little-endian form of the key codec.
module Numbers {
  import opened Bytes
  import opened Options

  function BeBytes(value: nat, n: nat): (s: seq<byte>)
    ensures |s| == n
    decreases n
  {
    if n == 0 then [] else BeBytes(value / 256, n - 1) + [(value % 256) as byte]
  }

  function BeValue(s: seq<byte>): nat {
    if s == [] then 0 else 256 * BeValue(s[..|s| - 1]) + s[|s| - 1] as nat
  }

  lemma {:induction false} BeValueOfBytes(value: nat, n: nat)
    requires value < Pow256(n)
    ensures BeValue(BeBytes(value, n)) == value
    decreases n
  {
    if n > 0 {
      BeValueOfBytes(value / 256, n - 1);
      assert BeBytes(value, n)[..n - 1] == BeBytes(value / 256, n - 1);
    }
  }

  lemma {:induction false} BeValueBound(s: seq<byte>)
    ensures BeValue(s) < Pow256(|s|)
    decreases |s|
  {
    if s != [] {
      BeValueBound(s[..|s| - 1]);
    }
  }

  // Octets without a leading zero are as many as their number takes, and the ones it has.
  lemma {:induction false} WithoutLeadingZero(s: seq<byte>)
    requires s != [] && s[0] > 0
    ensures BeValue(s) > 0 && NumBytes(BeValue(s)) == |s| && BeBytes(BeValue(s), |s|) == s
    decreases |s|
  {
    var n := |s| - 1;
    DivModUnique(BeValue(s), 256, BeValue(s[..n]), s[n] as nat);
    if n > 0 {
      WithoutLeadingZero(s[..n]);
    } else {
      assert BeValue(s[..0]) == 0 && NumBytes(0) == 0 && BeBytes(0, 0) == [];
    }
    assert s == s[..n] + [s[n]];
  }

  // Big-endian is little-endian read backwards.
  lemma {:induction false} BeIsLeReversed(value: nat, n: nat, i: nat)
    requires i < n
    ensures LeBytes(value, n)[i] == BeBytes(value, n)[n - 1 - i]
    decreases n
  {
    if i > 0 {
      BeIsLeReversed(value / 256, n - 1, i - 1);
    }
  }

  // The octets a number takes, without leading zeros.
  function NumBytes(value: nat): nat {
    if value == 0 then 0 else 1 + NumBytes(value / 256)
  }

  lemma {:induction false} NumBytesIsLeast(value: nat, n: nat)
    ensures NumBytes(value) <= n <==> value < Pow256(n)
    decreases n
  {
    if n > 0 && value > 0 {
      NumBytesIsLeast(value / 256, n - 1);
    }
  }

  // The significant bits of an octet.
  function ByteBits(b: byte): nat {
    if b == 0 then 0 else 1 + ByteBits(b / 2)
  }

  lemma {:induction false} ByteBitsLeast(b: byte, n: nat)
    ensures ByteBits(b) <= n <==> b as nat < Pow2(n)
    decreases n
  {
    if n > 0 && b > 0 {
      ByteBitsLeast(b / 2, n - 1);
    }
  }

  lemma TopBit(b: byte)
    ensures ByteBits(b) == 8 <==> b >= 128
  {
    assert Pow2(7) == 128 && Pow2(8) == 256;
    ByteBitsLeast(b, 7);
    ByteBitsLeast(b, 8);
  }

  function NumBits(value: nat): nat {
    if value < 256 then ByteBits(value as byte) else 8 + NumBits(value / 256)
  }

  // A number given by n little-endian octets with the top bit set has 8 n bits and n octets.
  lemma {:induction false} FullLength(s: seq<byte>)
    requires s != [] && s[|s| - 1] >= 128
    ensures NumBits(LeValue(s)) == 8 * |s| && NumBytes(LeValue(s)) == |s|
    decreases |s|
  {
    var v := LeValue(s);
    if |s| == 1 {
      assert LeValue(s[1..]) == 0 && NumBytes(v) == 1;
      TopBit(s[0]);
    } else {
      FullLength(s[1..]);
      assert v / 256 == LeValue(s[1..]);
      assert LeValue(s[1..]) > 0;
    }
  }

  const MAX_FIELD: nat := 64

  // The fixed-length little-endian form, of the numbers that have one.
  function FixedLe(bn: int, len: nat): (r: Option<seq<byte>>)
    ensures r.Some? <==> 0 <= bn < Pow256(len) && len <= MAX_FIELD
    ensures r.Some? ==> |r.value| == len && LeValue(r.value) == bn
  {
    if 0 <= bn < Pow256(len) && len <= MAX_FIELD then
      LeValueOfBytes(bn, len);
      DivModUnique(bn, Pow256(len), 0, bn);
      Some(LeBytes(bn, len))
    else None
  }

  // The three refusals of the code leave the numbers that have the form.
  lemma FixedLeCases(bn: int, len: nat)
    ensures FixedLe(bn, len) ==
      if bn < 0 || len > MAX_FIELD || NumBytes(bn) > len then None else Some(LeBytes(bn, len))
  {
    if bn >= 0 {
      NumBytesIsLeast(bn, len);
    }
  }

  lemma ReversedIsLe(value: nat, n: nat, s: seq<byte>)
    requires |s| == n && forall i :: 0 <= i < n ==> s[i] == BeBytes(value, n)[n - 1 - i]
    ensures s == LeBytes(value, n)
  {
    forall i | 0 <= i < n
      ensures s[i] == LeBytes(value, n)[i]
    {
      BeIsLeReversed(value, n, i);
    }
  }

  // Writes a number as len little-endian octets, by way of its big-endian form.
  method BnToFixedLe(bn: int, out: array<byte>, len: nat) returns (ok: bool)
    requires len <= out.Length
    modifies out
    ensures ok <==> FixedLe(bn, len).Some?
    ensures ok ==> out[..len] == FixedLe(bn, len).value
    ensures out[len..] == old(out[len..]) && (!ok ==> out[..] == old(out[..]))
  {
    FixedLeCases(bn, len);
    hide *;
    if bn < 0 {
      return false;
    }
    if len > MAX_FIELD {
      return false;
    }
    if NumBytes(bn) > len {
      return false;
    }
    var tmp := BeBytes(bn, len);
    var i := 0;
    while i < len
      invariant 0 <= i <= len
      invariant forall j :: 0 <= j < i ==> out[j] == tmp[len - 1 - j]
      invariant forall j :: len <= j < out.Length ==> out[j] == old(out[j])
    {
      out[i] := tmp[len - 1 - i];
      i := i + 1;
    }
    ReversedIsLe(bn, len, out[..len]);
    return true;
  }

  // Reading little-endian octets as a number and writing it back in as many octets are inverse,
  // both ways.
  lemma FixedLeInverse(s: seq<byte>, value: nat)
    ensures LeValue(s) < Pow256(|s|) && LeBytes(LeValue(s), |s|) == s
    ensures value < Pow256(|s|) ==> LeValue(LeBytes(value, |s|)) == value
  {
    LeValueBound(s);
    LeBytesOfValue(s);
    LeValueOfBytes(value, |s|);
    if value < Pow256(|s|) {
      DivModUnique(value, Pow256(|s|), 0, value);
    }
  }
}
