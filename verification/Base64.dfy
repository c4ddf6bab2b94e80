// Base64 (section 4 of RFC 4648) over octets.
module Base64 {
  import opened Bytes
  import opened Options

  const PAD: byte := '=' as byte

  function Letter(i: byte): (c: byte)
    requires i < 64
    ensures c != PAD && c != 10
  {
    if i < 26 then 'A' as byte + i
    else if i < 52 then 'a' as byte + (i - 26)
    else if i < 62 then '0' as byte + (i - 52)
    else if i == 62 then '+' as byte
    else '/' as byte
  }

  function Index(c: byte): (i: Option<byte>)
    ensures i.Some? ==> i.value < 64
  {
    if 'A' as byte <= c <= 'Z' as byte then Some(c - 'A' as byte)
    else if 'a' as byte <= c <= 'z' as byte then Some(c - 'a' as byte + 26)
    else if '0' as byte <= c <= '9' as byte then Some(c - '0' as byte + 52)
    else if c == '+' as byte then Some(62)
    else if c == '/' as byte then Some(63)
    else None
  }

  lemma IndexOfLetter(i: byte)
    requires i < 64
    ensures Index(Letter(i)) == Some(i)
  {
  }

  // Groups of three octets become four letters; a last group of one or two is padded.
  function Encode(data: seq<byte>): (text: seq<byte>)
    decreases |data|
  {
    if |data| == 0 then []
    else if |data| == 1 then
      [Letter(data[0] / 4), Letter(data[0] % 4 * 16), PAD, PAD]
    else if |data| == 2 then
      [Letter(data[0] / 4), Letter(data[0] % 4 * 16 + data[1] / 16), Letter(data[1] % 16 * 4), PAD]
    else
      [Letter(data[0] / 4), Letter(data[0] % 4 * 16 + data[1] / 16), Letter(data[1] % 16 * 4 + data[2] / 64),
       Letter(data[2] % 64)]
      + Encode(data[3..])
  }

  function Three(a: byte, b: byte, c: byte, d: byte): seq<byte>
    requires a < 64 && b < 64 && c < 64 && d < 64
  {
    [a * 4 + b / 16, b % 16 * 16 + c / 4, c % 4 * 64 + d]
  }

  // The inverse, refusing anything that is not groups of four with the padding at the end.
  function Decode(text: seq<byte>): Option<seq<byte>>
    decreases |text|
  {
    if text == [] then Some([])
    else if |text| < 4 then None
    else
      var a, b, c, d := Index(text[0]), Index(text[1]), Index(text[2]), Index(text[3]);
      if a.None? || b.None? then None
      else if |text| == 4 && text[2] == PAD && text[3] == PAD then Some(Three(a.value, b.value, 0, 0)[..1])
      else if c.None? then None
      else if |text| == 4 && text[3] == PAD then Some(Three(a.value, b.value, c.value, 0)[..2])
      else if d.None? then None
      else
        var rest := Decode(text[4..]);
        if rest.None? then None else Some(Three(a.value, b.value, c.value, d.value) + rest.value)
  }

  lemma Join(high: byte, low: byte, m: byte)
    requires m > 0 && low < m && high as int * m as int + low as int < 256
    ensures (high * m + low) / m == high && (high * m + low) % m == low
  {
    DivModUnique(high as int * m as int + low as int, m as int, high as int, low as int);
  }

  lemma WholeGroup(x: byte, y: byte, z: byte)
    ensures Three(x / 4, x % 4 * 16 + y / 16, y % 16 * 4 + z / 64, z % 64) == [x, y, z]
  {
    Join(x % 4, y / 16, 16);
    Join(y % 16, z / 64, 4);
  }

  lemma GroupOfOne(x: byte)
    ensures Three(x / 4, x % 4 * 16, 0, 0)[..1] == [x]
  {
    WholeGroup(x, 0, 0);
    hide Three;
    assert [x, 0, 0][..1] == [x];
  }

  lemma GroupOfTwo(x: byte, y: byte)
    ensures Three(x / 4, x % 4 * 16 + y / 16, y % 16 * 4, 0)[..2] == [x, y]
  {
    WholeGroup(x, y, 0);
    hide Three;
    assert [x, y, 0][..2] == [x, y];
  }

  lemma WholeGroupDecodes(a: byte, b: byte, c: byte, d: byte, text: seq<byte>)
    requires a < 64 && b < 64 && c < 64 && d < 64 && Decode(text).Some?
    ensures Decode([Letter(a), Letter(b), Letter(c), Letter(d)] + text) == Some(Three(a, b, c, d) + Decode(text).value)
  {
    IndexOfLetter(a);
    IndexOfLetter(b);
    IndexOfLetter(c);
    IndexOfLetter(d);
    hide Letter, Index, Three;
    var all := [Letter(a), Letter(b), Letter(c), Letter(d)] + text;
    assert all[4..] == text;
  }

  lemma BegunGroupDecodes(a: byte, b: byte, c: byte)
    requires a < 64 && b < 64 && c < 64
    ensures Decode([Letter(a), Letter(b), PAD, PAD]) == Some(Three(a, b, 0, 0)[..1])
    ensures Decode([Letter(a), Letter(b), Letter(c), PAD]) == Some(Three(a, b, c, 0)[..2])
  {
    IndexOfLetter(a);
    IndexOfLetter(b);
    IndexOfLetter(c);
    hide Letter, Index, Three;
  }

  lemma {:induction false} DecodeOfEncode(data: seq<byte>)
    ensures Decode(Encode(data)) == Some(data)
    decreases |data|
  {
    hide Letter, Decode, Three;
    if |data| == 0 {
      NothingDecodes();
    } else if |data| == 1 {
      GroupOfOne(data[0]);
      BegunGroupDecodes(data[0] / 4, data[0] % 4 * 16, 0);
      assert data == [data[0]];
    } else if |data| == 2 {
      GroupOfTwo(data[0], data[1]);
      BegunGroupDecodes(data[0] / 4, data[0] % 4 * 16 + data[1] / 16, data[1] % 16 * 4);
      assert data == [data[0], data[1]];
    } else {
      var x, y, z := data[0], data[1], data[2];
      DecodeOfEncode(data[3..]);
      WholeGroup(x, y, z);
      WholeGroupDecodes(x / 4, x % 4 * 16 + y / 16, y % 16 * 4 + z / 64, z % 64, Encode(data[3..]));
      assert data == [x, y, z] + data[3..];
    }
  }

  lemma NothingDecodes()
    ensures Decode([]) == Some([])
  {
  }

  lemma NothingEncodes()
    ensures Encode([]) == []
  {
  }

  // Encoding goes through where a multiple of three octets ends.
  lemma {:induction false} EncodeAppend(a: seq<byte>, b: seq<byte>)
    requires |a| % 3 == 0
    ensures Encode(a + b) == Encode(a) + Encode(b)
    decreases |a|
  {
    if a == [] {
      assert a + b == b;
    } else {
      assert (a + b)[3..] == a[3..] + b;
      EncodeAppend(a[3..], b);
    }
  }

  // Four letters for three octets, begun groups included; never a line feed.
  lemma {:induction false} Shape(data: seq<byte>)
    ensures |Encode(data)| == (|data| + 2) / 3 * 4
    ensures forall i :: 0 <= i < |Encode(data)| ==> Encode(data)[i] != 10
    decreases |data|
  {
    hide Letter;
    if |data| >= 3 {
      Shape(data[3..]);
      assert (|data| + 2) / 3 == (|data| - 3 + 2) / 3 + 1;
    }
  }

  // Padding only for a begun group.
  lemma {:induction false} NoPadding(data: seq<byte>)
    requires |data| % 3 == 0
    ensures PAD !in Encode(data)
    decreases |data|
  {
    hide Letter;
    if |data| >= 3 {
      NoPadding(data[3..]);
    }
  }

  // ---------------------------------------------------------------- RFC 4648 letter by letter

  // Table 1 of the RFC, in rows of sixteen.
  lemma LetterInTable(i: byte, row: byte, column: byte)
    requires row < 4 && column < 16 && i == 16 * row + column
    ensures row == 0 ==> Letter(i) as char == "ABCDEFGHIJKLMNOP"[column]
    ensures row == 1 ==> Letter(i) as char == "QRSTUVWXYZabcdef"[column]
    ensures row == 2 ==> Letter(i) as char == "ghijklmnopqrstuv"[column]
    ensures row == 3 ==> Letter(i) as char == "wxyz0123456789+/"[column]
  {
  }

  // Octet i of the data, or zero behind its end.
  function OctetOrZero(data: seq<byte>, i: nat): nat {
    if i < |data| then data[i] as nat else 0
  }

  // The letters of group g are the four parts of six bits of its octets, taken as one number of 24 bits;
  // a pad stands for each octet that is missing (section 4 of the RFC).
  lemma {:induction false} GroupAt(data: seq<byte>, g: nat, at: nat)
    requires 3 * g < |data| && at == 3 * g
    ensures |Encode(data)| >= 4 * g + 4
    ensures var n := 65536 * OctetOrZero(data, at) + 256 * OctetOrZero(data, at + 1) + OctetOrZero(data, at + 2);
      Encode(data)[4 * g..4 * g + 4] == [
        Letter((n / 262144) as byte), Letter((n / 4096 % 64) as byte),
        if at + 1 < |data| then Letter((n / 64 % 64) as byte) else 61,
        if at + 2 < |data| then Letter((n % 64) as byte) else 61]
    decreases g
  {
    hide Letter, Encode;
    if g > 0 {
      GroupAt(data[3..], g - 1, at - 3);
      LaterGroup(data, g);
      LaterOctets(data, at);
    } else {
      FirstGroup(data);
    }
  }

  lemma LaterOctets(data: seq<byte>, at: nat)
    requires 3 <= at < |data|
    ensures OctetOrZero(data[3..], at - 3) == OctetOrZero(data, at)
    ensures OctetOrZero(data[3..], at - 2) == OctetOrZero(data, at + 1)
    ensures OctetOrZero(data[3..], at - 1) == OctetOrZero(data, at + 2)
  {
  }

  lemma LaterGroup(data: seq<byte>, g: nat)
    requires g > 0 && 3 * g < |data| && |Encode(data[3..])| >= 4 * g
    ensures |Encode(data)| >= 4 * g + 4
    ensures Encode(data)[4 * g..4 * g + 4] == Encode(data[3..])[4 * g - 4..4 * g]
  {
    hide Letter;
  }

  lemma FirstGroup(data: seq<byte>)
    requires data != []
    ensures |Encode(data)| >= 4
    ensures var n := 65536 * OctetOrZero(data, 0) + 256 * OctetOrZero(data, 1) + OctetOrZero(data, 2);
      Encode(data)[..4] == [
        Letter((n / 262144) as byte), Letter((n / 4096 % 64) as byte),
        if 1 < |data| then Letter((n / 64 % 64) as byte) else 61,
        if 2 < |data| then Letter((n % 64) as byte) else 61]
  {
    hide Letter;
    var x, y, z := OctetOrZero(data, 0), OctetOrZero(data, 1), OctetOrZero(data, 2);
    Sextets(x, y, z, 65536 * x + 256 * y + z);
  }

  lemma Sextets(x: nat, y: nat, z: nat, n: nat)
    requires x < 256 && y < 256 && z < 256 && n == 65536 * x + 256 * y + z
    ensures n / 262144 == x / 4 && n / 4096 % 64 == x % 4 * 16 + y / 16
    ensures n / 64 % 64 == y % 16 * 4 + z / 64 && n % 64 == z % 64
  {
    SixBits(x / 4, x % 4 * 16 + y / 16, y % 16 * 4 + z / 64, z % 64, n);
  }

  lemma SixBits(a: nat, b: nat, c: nat, d: nat, n: nat)
    requires b < 64 && c < 64 && d < 64 && n == 262144 * a + 4096 * b + 64 * c + d
    ensures n / 262144 == a && n / 4096 % 64 == b && n / 64 % 64 == c && n % 64 == d
  {
    DivModUnique(n, 262144, a, 4096 * b + 64 * c + d);
    DivModUnique(n, 4096, 64 * a + b, 64 * c + d);
    DivModUnique(64 * a + b, 64, a, b);
    DivModUnique(n, 64, 4096 * a + 64 * b + c, d);
    DivModUnique(4096 * a + 64 * b + c, 64, 64 * a + b, c);
  }
}
