// Tag-length-value octets (section 8.1 of ITU-T X.690, definite lengths) and the contents of the
// types the key codec uses.
module Der {
  import opened Bytes
  import opened Options
  import opened Numbers

  const INTEGER: byte := 2
  const BIT_STRING: byte := 3
  const OCTET_STRING: byte := 4
  const OBJECT: byte := 6
  const SEQUENCE: byte := 48
  const ATTRIBUTES: byte := 160

  datatype Item = Item(tag: byte, content: seq<byte>) {
    predicate Fits() {
      tag % 32 != 31 && |content| <= INT_MAX
    }
  }

  // ---------------------------------------------------------------- lengths

  function PrintLength(n: nat): (s: seq<byte>)
    requires n <= INT_MAX
    ensures |s| <= 5
  {
    NumBytesIsLeast(n, 4);
    if n < 128 then [n as byte] else [(128 + NumBytes(n)) as byte] + BeBytes(n, NumBytes(n))
  }

  datatype Length = Length(value: nat, rest: seq<byte>)

  // The long form may be longer than it need be; the indefinite form is refused.
  function ReadLength(s: seq<byte>): (r: Option<Length>)
    ensures r.Some? ==> |r.value.rest| < |s|
  {
    if s == [] then None
    else if s[0] < 128 then Some(Length(s[0] as nat, s[1..]))
    else
      var k := s[0] as nat - 128;
      if k == 0 || |s| < 1 + k then None else Some(Length(BeValue(s[1..1 + k]), s[1 + k..]))
  }

  lemma LengthRoundTrip(n: nat, rest: seq<byte>)
    requires n <= INT_MAX
    ensures ReadLength(PrintLength(n) + rest) == Some(Length(n, rest))
  {
    var s := PrintLength(n) + rest;
    if n < 128 {
      assert s[1..] == rest;
    } else {
      var k := NumBytes(n);
      NumBytesIsLeast(n, 4);
      NumBytesIsLeast(n, k);
      BeValueOfBytes(n, k);
      assert s[0] == (128 + k) as byte;
      assert s[1..1 + k] == BeBytes(n, k);
      assert s[1 + k..] == rest;
    }
  }

  // Nothing shorter reads as the same length.
  lemma LengthIsShortest(n: nat, s: seq<byte>)
    requires n <= INT_MAX && ReadLength(s) == Some(Length(n, []))
    ensures |PrintLength(n)| <= |s|
  {
    if s[0] >= 128 {
      var k := s[0] as nat - 128;
      assert |s| == 1 + k;
      BeValueBound(s[1..1 + k]);
      NumBytesIsLeast(n, k);
    }
  }

  // ---------------------------------------------------------------- items

  function Print(item: Item): (s: seq<byte>)
    requires item.Fits()
    ensures |item.content| + 2 <= |s| <= |item.content| + 6
    ensures s[0] == item.tag
  {
    [item.tag] + PrintLength(|item.content|) + item.content
  }

  datatype Element = Element(item: Item, rest: seq<byte>)

  function Read(s: seq<byte>): (r: Option<Element>)
    ensures r.Some? ==> |r.value.rest| < |s| && |r.value.item.content| < |s|
  {
    if s == [] || s[0] % 32 == 31 then None
    else
      var n := ReadLength(s[1..]);
      if n.None? || n.value.value > |n.value.rest| then None
      else Some(Element(Item(s[0], n.value.rest[..n.value.value]), n.value.rest[n.value.value..]))
  }

  lemma ItemRoundTrip(item: Item, rest: seq<byte>)
    requires item.Fits()
    ensures Read(Print(item) + rest) == Some(Element(item, rest))
  {
    var s, n := Print(item) + rest, |item.content|;
    assert s[1..] == PrintLength(n) + (item.content + rest);
    LengthRoundTrip(n, item.content + rest);
    assert (item.content + rest)[..n] == item.content;
    assert (item.content + rest)[n..] == rest;
  }

  predicate AllFit(items: seq<Item>) {
    forall i :: 0 <= i < |items| ==> items[i].Fits()
  }

  function PrintAll(items: seq<Item>): seq<byte>
    requires AllFit(items)
  {
    if items == [] then [] else Print(items[0]) + PrintAll(items[1..])
  }

  // The items an octet string is made of, if it is made of items to its end.
  function ReadAll(s: seq<byte>): Option<seq<Item>>
    decreases |s|
  {
    if s == [] then Some([])
    else
      var first := Read(s);
      if first.None? then None
      else
        var others := ReadAll(first.value.rest);
        if others.None? then None else Some([first.value.item] + others.value)
  }

  lemma {:induction false} ItemsRoundTrip(items: seq<Item>)
    requires AllFit(items)
    ensures ReadAll(PrintAll(items)) == Some(items)
    decreases |items|
  {
    if items != [] {
      ItemRoundTrip(items[0], PrintAll(items[1..]));
      ItemsRoundTrip(items[1..]);
      assert [items[0]] + items[1..] == items;
    }
  }

  lemma {:induction false} PrintedLength(items: seq<Item>, most: nat)
    requires AllFit(items) && forall i :: 0 <= i < |items| ==> |items[i].content| <= most
    ensures |PrintAll(items)| <= |items| * (most + 6)
    decreases |items|
  {
    if items != [] {
      PrintedLength(items[1..], most);
      assert (|items| - 1) * (most + 6) + (most + 6) == |items| * (most + 6);
    }
  }

  // ---------------------------------------------------------------- contents

  // Two's complement in the fewest octets.
  function IntegerContent(value: nat): (s: seq<byte>)
    ensures s != [] && |s| <= NumBytes(value) + 1
  {
    var s := BeBytes(value, NumBytes(value));
    if value == 0 || s[0] >= 128 then [0] + s else s
  }

  function ReadInteger(s: seq<byte>): Option<int> {
    if s == [] then None
    else if |s| > 1 && ((s[0] == 0 && s[1] < 128) || (s[0] == 255 && s[1] >= 128)) then None
    else Some(BeValue(s) - (if s[0] >= 128 then Pow256(|s|) else 0))
  }

  lemma {:induction false} LeadingOctet(value: nat)
    requires value > 0
    ensures BeBytes(value, NumBytes(value))[0] > 0
  {
    if value >= 256 {
      LeadingOctet(value / 256);
    }
  }

  lemma {:induction false} LeadingZero(s: seq<byte>)
    ensures BeValue([0] + s) == BeValue(s)
    decreases |s|
  {
    var t := [0] + s;
    if s == [] {
      assert t[..0] == [];
    } else {
      assert t[..|t| - 1] == [0] + s[..|s| - 1];
      LeadingZero(s[..|s| - 1]);
    }
  }

  lemma IntegerRoundTrip(value: nat)
    ensures ReadInteger(IntegerContent(value)) == Some(value)
  {
    var n := NumBytes(value);
    NumBytesIsLeast(value, n);
    BeValueOfBytes(value, n);
    LeadingZero(BeBytes(value, n));
    if value > 0 {
      LeadingOctet(value);
    }
  }

  // Only those octets read as the number.
  lemma IntegerIsCanonical(s: seq<byte>, value: nat)
    requires ReadInteger(s) == Some(value)
    ensures s == IntegerContent(value)
  {
    BeValueBound(s);
    assert s[0] < 128;
    if s[0] > 0 {
      WithoutLeadingZero(s);
    } else {
      assert s == [0] + s[1..];
      LeadingZero(s[1..]);
      if |s| > 1 {
        WithoutLeadingZero(s[1..]);
      }
    }
  }

  // Whole octets: no bit is unused.
  function BitContent(data: seq<byte>): seq<byte> {
    [0] + data
  }

  // The unused bits of the last octet read as zero.
  function ReadBits(s: seq<byte>): Option<seq<byte>> {
    if s == [] || s[0] > 7 then None
    else if |s| == 1 then Some([])
    else
      Some(s[1..|s| - 1] + [ClearLow(s[|s| - 1], s[0] as nat)])
  }

  // The octet without its low n bits.
  function ClearLow(b: byte, n: nat): (r: byte)
    ensures r <= b
  {
    ModAtMost(b as nat, Pow2(n));
    (b as nat - b as nat % Pow2(n)) as byte
  }

  lemma ModAtMost(value: nat, m: nat)
    requires m > 0
    ensures 0 <= value % m <= value
  {
    if value < m {
      DivModUnique(value, m, 0, value);
    }
  }

  lemma BitsRoundTrip(data: seq<byte>)
    ensures ReadBits(BitContent(data)) == Some(data)
  {
    var s := BitContent(data);
    if data != [] {
      assert ClearLow(data[|data| - 1], 0) == data[|data| - 1] by {
        assert Pow2(0) == 1;
      }
      assert s[1..|s| - 1] == data[..|data| - 1];
      assert data[..|data| - 1] + [data[|data| - 1]] == data;
    }
  }
}
