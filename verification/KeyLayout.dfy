// The octets of written keys, spelled out (section 5 of RFC 5208 and section 4.1 of RFC 5280 in the
// encoding of ITU-T X.690).
module KeyLayout {
  import opened Bytes
  import opened Numbers
  import opened Options
  import opened Der
  import opened DomainParams
  import opened KeyFormats
  import M = BignModel

  // ---------------------------------------------------------------- elements

  // Tag, length in the fewest octets, contents, of up to 65535 octets.
  function Tlv(tag: byte, content: seq<byte>): seq<byte> {
    var n := |content|;
    [tag]
    + (if n < 128 then [n as byte] else if n < 256 then [0x81, n as byte]
       else [0x82, (n / 256 % 256) as byte, (n % 256) as byte])
    + content
  }

  lemma PrintedIsTlv(item: Item)
    requires item.Fits() && |item.content| < 0x1_0000
    ensures Print(item) == Tlv(item.tag, item.content)
  {
    var n := |item.content|;
    if n >= 256 {
      assert NumBytes(n) == 2 && NumBytes(n / 256) == 1;
      assert BeBytes(n, 2) == BeBytes(n / 256, 1) + [(n % 256) as byte];
      assert BeBytes(n / 256, 1) == [] + [(n / 256 % 256) as byte];
    } else if n >= 128 {
      assert NumBytes(n) == 1;
      assert BeBytes(n, 1) == [] + [n as byte];
    }
  }

  lemma {:induction false} PrintAllAppend(a: seq<Item>, b: seq<Item>)
    requires AllFit(a) && AllFit(b)
    ensures AllFit(a + b) && PrintAll(a + b) == PrintAll(a) + PrintAll(b)
    decreases |a|
  {
    hide Print;
    if a == [] {
      assert a + b == b;
    } else {
      assert (a + b)[1..] == a[1..] + b && (a + b)[0] == a[0];
      PrintAllAppend(a[1..], b);
      hide AllFit;
      AppendAssociates(Print(a[0]), PrintAll(a[1..]), PrintAll(b));
    }
  }

  lemma PrintOne(x: Item)
    requires x.Fits()
    ensures PrintAll([x]) == Print(x)
  {
    assert [x][1..] == [];
    AppendNothing(Print(x));
  }

  lemma PrintTwo(x: Item, y: Item)
    requires x.Fits() && y.Fits()
    ensures PrintAll([x, y]) == Print(x) + Print(y)
  {
    PrintOne(x);
    PrintOne(y);
    PrintAllAppend([x], [y]);
    assert [x] + [y] == [x, y];
  }

  lemma PrintThree(x: Item, y: Item, z: Item)
    requires x.Fits() && y.Fits() && z.Fits()
    ensures PrintAll([x, y, z]) == Print(x) + Print(y) + Print(z)
  {
    PrintTwo(x, y);
    PrintOne(z);
    PrintAllAppend([x, y], [z]);
    assert [x, y] + [z] == [x, y, z];
  }

  lemma PrintFive(v: Item, w: Item, x: Item, y: Item, z: Item)
    requires v.Fits() && w.Fits() && x.Fits() && y.Fits() && z.Fits()
    ensures PrintAll([v, w, x, y, z]) == Print(v) + Print(w) + Print(x) + Print(y) + Print(z)
  {
    PrintThree(v, w, x);
    PrintTwo(y, z);
    PrintAllAppend([v, w, x], [y, z]);
    assert [v, w, x] + [y, z] == [v, w, x, y, z];
  }

  // ---------------------------------------------------------------- numbers

  function Backwards(s: seq<byte>): (r: seq<byte>)
    ensures |r| == |s|
  {
    seq(|s|, i requires 0 <= i < |s| => s[|s| - 1 - i])
  }

  // A number with its top bit set is written big-endian behind a zero octet.
  lemma IntegerLayout(s: seq<byte>)
    requires s != [] && s[|s| - 1] >= 128
    ensures IntegerContent(LeValue(s)) == [0] + Backwards(s)
  {
    var value, n := LeValue(s), |s|;
    FullLength(s);
    LeBytesOfValue(s);
    forall i | 0 <= i < n
      ensures BeBytes(value, n)[i] == Backwards(s)[i]
    {
      BeIsLeReversed(value, n, n - 1 - i);
    }
    SameOctets(BeBytes(value, n), Backwards(s));
  }

  // ---------------------------------------------------------------- algorithm identifiers

  // bign-pubkey, 1.2.112.0.2.0.34.101.45.2.1, and bign-primefield, 1.2.112.0.2.0.34.101.45.4.1
  const PUBKEY_ELEMENT: seq<byte> := [6, 10, 42, 112, 0, 2, 0, 34, 101, 45, 2, 1]
  const FIELD_ELEMENT: seq<byte> := [6, 10, 42, 112, 0, 2, 0, 34, 101, 45, 4, 1]

  // 1.2.112.0.2.0.34.101.45.3.1 to .3
  function CurveElement(v: M.Variant): seq<byte> {
    [6, 10, 42, 112, 0, 2, 0, 34, 101, 45, 3] + [match v case Bign256 => 1 case Bign384 => 2 case Bign512 => 3]
  }

  // A curve spelled out: version 1, the prime field, the coefficients and the seed, the base point, the
  // order, and the cofactor 1 if wanted.
  function SpelledElement(curve: M.Curve, cofactor: bool): seq<byte> {
    Tlv(0x30, SpelledContent(curve, cofactor))
  }

  function SpelledContent(curve: M.Curve, cofactor: bool): seq<byte> {
    [2, 1, 1]
    + Tlv(0x30, FIELD_ELEMENT + Tlv(2, [0] + Backwards(curve.p)))
    + Tlv(0x30, Tlv(4, curve.a) + Tlv(4, curve.b) + Tlv(3, [0] + curve.seed))
    + Tlv(4, curve.yG)
    + Tlv(2, [0] + Backwards(curve.q))
    + if cofactor then [2, 1, 1] else []
  }

  // The algorithm identifier of a key.
  function AlgorithmElement(c: M.Primitives, k: M.Key): seq<byte>
    requires k.variant.Some? && (k.explicit ==> c.curve(k.variant.value).Some?)
  {
    Tlv(0x30, PUBKEY_ELEMENT
        + if k.explicit then SpelledElement(c.curve(k.variant.value).value, k.cofactor)
          else CurveElement(k.variant.value))
  }

  lemma FieldLayout(curve: M.Curve)
    requires curve.p != [] && |curve.p| <= 64 && curve.p[|curve.p| - 1] >= 128
    ensures Print(FieldItem(curve)) == Tlv(0x30, FIELD_ELEMENT + Tlv(2, [0] + Backwards(curve.p)))
  {
    hide Print, PrintAll, IntegerContent, Backwards, Tlv, LeValue, NumBytes, NumBits;
    FullLength(curve.p);
    var oid, prime := Item(OBJECT, PRIME_FIELD), Item(INTEGER, IntegerContent(LeValue(curve.p)));
    PrintTwo(oid, prime);
    PrintedIsTlv(oid);
    PrintedIsTlv(prime);
    PrintedIsTlv(FieldItem(curve));
    IntegerLayout(curve.p);
    OidElements();
  }

  lemma OidElements()
    ensures Tlv(6, PUBKEY) == PUBKEY_ELEMENT && Tlv(6, PRIME_FIELD) == FIELD_ELEMENT
  {
  }

  lemma CurveLayout(curve: M.Curve)
    requires |curve.a| <= 64 && |curve.b| <= 64 && |curve.seed| == 8
    ensures Print(CurveItem(curve)) == Tlv(0x30, Tlv(4, curve.a) + Tlv(4, curve.b) + Tlv(3, [0] + curve.seed))
  {
    var a, b := Item(OCTET_STRING, curve.a), Item(OCTET_STRING, curve.b);
    var seed := Item(BIT_STRING, BitContent(curve.seed));
    PrintThree(a, b, seed);
    PrintedIsTlv(a);
    PrintedIsTlv(b);
    PrintedIsTlv(seed);
    PrintedIsTlv(CurveItem(curve));
    hide CurveItem, Print, Tlv;
  }

  // The elements of the spelled-out form, but for the cofactor.
  lemma ListLayout(one: Item, field: Item, curve: Item, base: seq<byte>, order: seq<byte>, cofactor: bool)
    requires one.Fits() && field.Fits() && curve.Fits() && |base| <= 210 && |order| <= 210
    requires |one.content| <= 210 && |field.content| <= 210 && |curve.content| <= 210
    ensures PrintAll(EcList(one, field, curve, base, order, cofactor))
         == Print(one) + Print(field) + Print(curve) + Tlv(4, base) + Tlv(2, order)
            + if cofactor then Print(one) else []
  {
    var y, z := Item(OCTET_STRING, base), Item(INTEGER, order);
    PrintFive(one, field, curve, y, z);
    PrintedIsTlv(y);
    PrintedIsTlv(z);
    hide Print, PrintAll, Tlv;
    if cofactor {
      PrintOne(one);
      PrintAllAppend([one, field, curve, y, z], [one]);
    }
  }

  lemma SpelledLayout(curve: M.Curve, cofactor: bool)
    requires Small(curve)
    ensures PrintAll(EcItems(curve, cofactor)) == SpelledContent(curve, cofactor)
  {
    hide Print, PrintAll, Tlv, FieldItem, CurveItem, IntegerContent, Backwards;
    FullLength(curve.q);
    FieldLayout(curve);
    CurveLayout(curve);
    IntegerLayout(curve.q);
    PrintedIsTlv(ONE);
    VersionElements();
    ListLayout(ONE, FieldItem(curve), CurveItem(curve), curve.yG, IntegerContent(LeValue(curve.q)), cofactor);
  }

  // ---------------------------------------------------------------- keys

  lemma ParamsLayout(c: M.Primitives, k: M.Key)
    requires c.Valid() && AlgorithmParams(c, k).Some?
    ensures Print(AlgorithmParams(c, k).value) == if k.explicit
      then SpelledElement(c.curve(k.variant.value).value, k.cofactor) else CurveElement(k.variant.value)
  {
    var item := AlgorithmParams(c, k).value;
    PrintedIsTlv(item);
    if k.explicit {
      var curve := c.curve(k.variant.value).value;
      CurveIsSmall(c, k.variant.value);
      assert item == Item(SEQUENCE, PrintAll(EcItems(curve, k.cofactor)));
      SpelledLayout(curve, k.cofactor);
    } else {
      NamedLayout(k.variant.value);
    }
  }

  lemma NamedLayout(v: M.Variant)
    ensures Tlv(6, CurveOid(v)) == CurveElement(v)
  {
  }

  lemma AlgorithmLayout(c: M.Primitives, k: M.Key)
    requires c.Valid() && AlgorithmParams(c, k).Some?
    ensures Print(AlgorithmItem(AlgorithmParams(c, k).value)) == AlgorithmElement(c, k)
  {
    hide AlgorithmParams, SpelledElement, CurveElement, Print, PrintAll, Tlv;
    var oid, params := Item(OBJECT, PUBKEY), AlgorithmParams(c, k).value;
    PrintTwo(oid, params);
    PrintedIsTlv(oid);
    PrintedIsTlv(AlgorithmItem(params));
    ParamsLayout(c, k);
    OidElements();
  }

  // A private key is written as version 0, the algorithm identifier and the private octets.
  lemma PrivateLayout(c: M.Primitives, k: M.Key)
    requires c.Valid() && k.Valid() && Pkcs8(c, k).Some?
    ensures Pkcs8(c, k).value == Tlv(0x30, [2, 1, 0] + AlgorithmElement(c, k) + Tlv(4, k.priv.value))
  {
    hide AlgorithmItem, AlgorithmParams, AlgorithmElement, Print, PrintAll, Tlv;
    var algorithm := AlgorithmItem(AlgorithmParams(c, k).value);
    var version, octets := Item(INTEGER, [0]), Item(OCTET_STRING, k.priv.value);
    PrintedLength(Pkcs8Items(algorithm, k.priv.value), 2604);
    PrintThree(version, algorithm, octets);
    PrintedIsTlv(version);
    PrintedIsTlv(octets);
    AlgorithmLayout(c, k);
    PrintedIsTlv(Item(SEQUENCE, PrintAll([version, algorithm, octets])));
    VersionElements();
  }

  lemma VersionElements()
    ensures Tlv(2, [0]) == [2, 1, 0] && Tlv(2, [1]) == [2, 1, 1]
  {
  }

  // A public key is written as the algorithm identifier and a bit string of the public octets, none of
  // whose bits is unused.
  lemma PublicLayout(c: M.Primitives, k: M.Key)
    requires c.Valid() && k.Valid() && Spki(c, k).Some?
    ensures Spki(c, k).value == Tlv(0x30, AlgorithmElement(c, k) + Tlv(3, [0] + PublicHalf(c, k).value))
  {
    hide AlgorithmItem, AlgorithmParams, AlgorithmElement, Print, PrintAll, Tlv, PublicHalf;
    var algorithm := AlgorithmItem(AlgorithmParams(c, k).value);
    var bits := Item(BIT_STRING, BitContent(PublicHalf(c, k).value));
    PrintedLength(SpkiItems(algorithm, PublicHalf(c, k).value), 2604);
    PrintTwo(algorithm, bits);
    PrintedIsTlv(bits);
    AlgorithmLayout(c, k);
    PrintedIsTlv(Item(SEQUENCE, PrintAll([algorithm, bits])));
  }

  // ---------------------------------------------------------------- keys of named curves

  // The algorithm identifier: bign-pubkey with the name of the curve.
  function NamedAlgorithm(v: M.Variant): (s: seq<byte>)
    ensures |s| == 26
  {
    [0x30, 0x18,
     0x06, 0x0A, 0x2A, 0x70, 0x00, 0x02, 0x00, 0x22, 0x65, 0x2D, 0x02, 0x01,
     0x06, 0x0A, 0x2A, 0x70, 0x00, 0x02, 0x00, 0x22, 0x65, 0x2D, 0x03,
     match v case Bign256 => 0x01 case Bign384 => 0x02 case Bign512 => 0x03]
  }

  lemma ShortElement(tag: byte, content: seq<byte>)
    requires |content| < 128
    ensures Tlv(tag, content) == [tag, |content| as byte] + content
  {
  }

  lemma MiddleElement(tag: byte, content: seq<byte>)
    requires 128 <= |content| < 256
    ensures Tlv(tag, content) == [tag, 0x81, |content| as byte] + content
  {
  }

  lemma NamedAlgorithmLayout(c: M.Primitives, k: M.Key)
    requires k.variant.Some? && !k.explicit
    ensures AlgorithmElement(c, k) == NamedAlgorithm(k.variant.value)
  {
    var content := PUBKEY_ELEMENT + CurveElement(k.variant.value);
    TwoOids(k.variant.value);
    hide NamedAlgorithm, CurveElement;
    ShortElement(0x30, content);
  }

  lemma TwoOids(v: M.Variant)
    ensures NamedAlgorithm(v) == [0x30, 0x18] + (PUBKEY_ELEMENT + CurveElement(v)) && |CurveElement(v)| == 12
  {
  }

  // All octets in front of the key are fixed by the variant.
  lemma NamedPrivateKey(c: M.Primitives, k: M.Key)
    requires c.Valid() && k.Valid() && k.priv.Some? && !k.explicit
    ensures Pkcs8(c, k).Some?
    ensures var (all, own) :=
        match k.variant.value case Bign256 => (0x3F, 0x20) case Bign384 => (0x4F, 0x30) case Bign512 => (0x5F, 0x40);
      Pkcs8(c, k).value
      == [0x30, all, 0x02, 0x01, 0x00] + NamedAlgorithm(k.variant.value) + [0x04, own] + k.priv.value
  {
    hide Pkcs8, AlgorithmParams, NamedAlgorithm, AlgorithmElement, Tlv;
    var v, d := k.variant.value, k.priv.value;
    assert |d| == match v case Bign256 => 32 case Bign384 => 48 case Bign512 => 64;
    PrivateLayout(c, k);
    NamedAlgorithmLayout(c, k);
    PrivateOctets(NamedAlgorithm(v), d, (|d| + 31) as byte, |d| as byte);
  }

  lemma PrivateOctets(a: seq<byte>, d: seq<byte>, all: byte, own: byte)
    requires |a| == 26 && |d| <= 64 && all as nat == |d| + 31 && own as nat == |d|
    ensures Tlv(0x30, [2, 1, 0] + a + Tlv(4, d)) == [0x30, all, 0x02, 0x01, 0x00] + a + [0x04, own] + d
  {
    ShortElement(4, d);
    var content := [2, 1, 0] + a + ([4, own] + d);
    ShortElement(0x30, content);
  }

  // The public octets are the stored ones, or without them those derived from the private ones.
  lemma NamedPublicKey(c: M.Primitives, k: M.Key, q: seq<byte>)
    requires c.Valid() && k.Valid() && k.variant.Some? && !k.explicit
    requires k.pub == Some(q)
          || (k.pub.None? && k.priv.Some? && c.Derive(k.variant.value, k.priv.value) == Some(q))
    ensures Spki(c, k).Some?
    ensures var (all, own) :=
        match k.variant.value
        case Bign256 => ([0x5D], [0x41]) case Bign384 => ([0x7D], [0x61]) case Bign512 => ([0x81, 0x9E], [0x81, 0x81]);
      Spki(c, k).value == [0x30] + all + NamedAlgorithm(k.variant.value) + [0x03] + own + [0x00] + q
  {
    assert PublicHalf(c, k) == Some(q);
    hide Spki, AlgorithmParams, NamedAlgorithm, AlgorithmElement, Tlv, PublicHalf;
    var v := k.variant.value;
    assert |q| == match v case Bign256 => 64 case Bign384 => 96 case Bign512 => 128;
    PublicLayout(c, k);
    NamedAlgorithmLayout(c, k);
    if v.Bign512? {
      LongPublicOctets(NamedAlgorithm(v), q);
    } else {
      PublicOctets(NamedAlgorithm(v), q, (|q| + 29) as byte, (|q| + 1) as byte);
    }
  }

  lemma PublicOctets(a: seq<byte>, q: seq<byte>, all: byte, own: byte)
    requires |a| == 26 && |q| <= 98 && all as nat == |q| + 29 && own as nat == |q| + 1
    ensures Tlv(0x30, a + Tlv(3, [0] + q)) == [0x30] + [all] + a + [0x03] + [own] + [0x00] + q
  {
    ShortElement(3, [0] + q);
    var content := a + ([3, own] + ([0] + q));
    ShortElement(0x30, content);
  }

  lemma LongPublicOctets(a: seq<byte>, q: seq<byte>)
    requires |a| == 26 && |q| == 128
    ensures Tlv(0x30, a + Tlv(3, [0] + q)) == [0x30] + [0x81, 0x9E] + a + [0x03] + [0x81, 0x81] + [0x00] + q
  {
    MiddleElement(3, [0] + q);
    var content := a + ([0x03, 0x81, 0x81] + ([0] + q));
    MiddleElement(0x30, content);
  }
}
