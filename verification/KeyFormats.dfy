// The two forms a Bign key is written in: PrivateKeyInfo (section 5 of RFC 5208) and
// SubjectPublicKeyInfo (section 4.1.2.7 of RFC 5280).
module KeyFormats {
  import opened Bytes
  import opened Options
  import opened Der
  import opened DomainParams
  import M = BignModel

  // ---------------------------------------------------------------- algorithm identifier

  function AlgorithmItem(params: Item): (item: Item)
    requires params.Fits() && |params.content| <= 1296
    ensures item.tag == SEQUENCE && item.Fits() && |item.content| <= 2604
  {
    var items := [Item(OBJECT, PUBKEY), params];
    PrintedLength(items, 1296);
    Item(SEQUENCE, PrintAll(items))
  }

  function ParseAlgorithm(c: M.Primitives, s: seq<byte>): Option<Domain> {
    var items := Der.ReadAll(s);
    if items.None? || |items.value| < 1 || |items.value| > 2 then None
    else if items.value[0] != Item(OBJECT, PUBKEY) then None
    else DomainFromParams(c, if |items.value| == 2 then Some(items.value[1]) else None)
  }

  lemma AlgorithmRoundTrip(c: M.Primitives, k: M.Key)
    requires c.Valid() && AlgorithmParams(c, k).Some?
    ensures ParseAlgorithm(c, AlgorithmItem(AlgorithmParams(c, k).value).content) == Some(WrittenDomain(k))
  {
    var params := AlgorithmParams(c, k).value;
    ItemsRoundTrip([Item(OBJECT, PUBKEY), params]);
    DomainRoundTrip(c, k);
  }

  // An algorithm identifier means a domain exactly when it names bign-pubkey and, as its parameters, the
  // curve, or spells out the standard curve.
  lemma AlgorithmMeans(c: M.Primitives, s: seq<byte>, d: Domain)
    requires c.Valid()
    ensures ParseAlgorithm(c, s) == Some(d) <==>
      && Der.ReadAll(s).Some? && |Der.ReadAll(s).value| == 2
      && Der.ReadAll(s).value[0] == Item(6, [42, 112, 0, 2, 0, 34, 101, 45, 2, 1])
      && ParamsMean(c, Der.ReadAll(s).value[1], d)
  {
    hide VariantFromExplicit, VariantFromCurve, ParseEcParams;
    if Der.ReadAll(s).Some? && |Der.ReadAll(s).value| == 2 {
      ParamsMeaning(c, Der.ReadAll(s).value[1], d);
    }
  }

  ghost predicate ParamsMean(c: M.Primitives, params: Item, d: Domain) {
    if d.explicit then
      && params.tag == 48 && c.curve(d.variant).Some?
      && exists seed :: ParseEcParams(params.content)
           == Some(Spelled(c.curve(d.variant).value, d.cofactor).(seed := seed))
    else params == Item(6, CurveOid(d.variant)) && !d.cofactor
  }

  lemma ParamsMeaning(c: M.Primitives, params: Item, d: Domain)
    requires c.Valid()
    ensures DomainFromParams(c, Some(params)) == Some(d) <==> ParamsMean(c, params, d)
  {
    CurveOidsAreDistinct(d.variant, params.content);
    SpelledMeaning(c, params.content, d);
    hide VariantFromCurve, CurveOid, DomainFromSpelled, Spelled;
  }

  lemma SpelledMeaning(c: M.Primitives, s: seq<byte>, d: Domain)
    requires c.Valid()
    ensures DomainFromSpelled(c, s) == Some(d) <==>
      && d.explicit && c.curve(d.variant).Some?
      && exists seed :: ParseEcParams(s) == Some(Spelled(c.curve(d.variant).value, d.cofactor).(seed := seed))
  {
    var e := ParseEcParams(s);
    if e.Some? {
      ExplicitMeansStandard(c, d.variant, e.value);
    }
    hide VariantFromExplicit, ParseEcParams;
    if DomainFromSpelled(c, s) == Some(d) {
      assert e == Some(Spelled(c.curve(d.variant).value, d.cofactor).(seed := e.value.seed));
    }
  }

  // ---------------------------------------------------------------- private keys

  function Pkcs8Items(algorithm: Item, priv: seq<byte>): (items: seq<Item>)
    requires algorithm.Fits() && |algorithm.content| <= 2604 && |priv| <= 64
    ensures AllFit(items) && forall i :: 0 <= i < |items| ==> |items[i].content| <= 2604
  {
    [Item(INTEGER, [0]), algorithm, Item(OCTET_STRING, priv)]
  }

  function Pkcs8(c: M.Primitives, k: M.Key): (r: Option<seq<byte>>)
    requires c.Valid() && k.Valid()
    ensures r.Some? <==> k.priv.Some? && (k.explicit ==> c.curve(k.variant.value).Some?)
    ensures r.Some? ==> r.value != []
  {
    var params := AlgorithmParams(c, k);
    if k.priv.None? || params.None? then None
    else
      var items := Pkcs8Items(AlgorithmItem(params.value), k.priv.value);
      PrintedLength(items, 2604);
      Some(Print(Item(SEQUENCE, PrintAll(items))))
  }

  datatype Private = Private(domain: Domain, octets: seq<byte>)

  // Any version will do; attributes may follow; what comes after the whole is ignored.
  function ParsePkcs8(c: M.Primitives, buf: seq<byte>): (r: Option<Private>)
    ensures r.Some? ==> |r.value.octets| == M.PrivLen(r.value.domain.variant)
  {
    var outer := Read(buf);
    if outer.None? || outer.value.item.tag != SEQUENCE then None
    else
      var items := Der.ReadAll(outer.value.item.content);
      if items.None? then None else PrivateFromItems(c, items.value)
  }

  function PrivateFromItems(c: M.Primitives, items: seq<Item>): (r: Option<Private>)
    ensures r.Some? ==> |r.value.octets| == M.PrivLen(r.value.domain.variant)
  {
    if |items| < 3 || |items| > 4 then None
    else if items[0].tag != INTEGER || items[1].tag != SEQUENCE || items[2].tag != OCTET_STRING then None
    else if |items| == 4 && (items[3].tag != ATTRIBUTES || !c.attributes(items[3].content)) then None
    else if ReadInteger(items[0].content).None? then None
    else
      var domain := ParseAlgorithm(c, items[1].content);
      if domain.None? || |items[2].content| != M.PrivLen(domain.value.variant) then None
      else Some(Private(domain.value, items[2].content))
  }

  // Reading a written private key gives its variant, its private octets, the explicit flag, and the
  // cofactor flag where the explicit one is up.
  lemma Pkcs8RoundTrip(c: M.Primitives, k: M.Key, trailing: seq<byte>)
    requires c.Valid() && k.Valid() && Pkcs8(c, k).Some?
    ensures ParsePkcs8(c, Pkcs8(c, k).value + trailing) == Some(Private(WrittenDomain(k), k.priv.value))
  {
    hide AlgorithmItem, AlgorithmParams, Print, PrintAll, ParseAlgorithm, Read;
    var algorithm := AlgorithmItem(AlgorithmParams(c, k).value);
    var items := Pkcs8Items(algorithm, k.priv.value);
    PrintedLength(items, 2604);
    ItemRoundTrip(Item(SEQUENCE, PrintAll(items)), trailing);
    ItemsRoundTrip(items);
    AlgorithmRoundTrip(c, k);
    PrivateItems(c, k, algorithm);
  }

  // A private key reads the same under any version, with or without attributes that are well formed.
  lemma AnyVersionReads(c: M.Primitives, k: M.Key, version: seq<byte>, attributes: Option<seq<byte>>,
      trailing: seq<byte>)
    requires c.Valid() && k.Valid() && Pkcs8(c, k).Some? && ReadInteger(version).Some? && |version| <= 2604
    requires attributes.Some? ==> |attributes.value| <= 2604
    ensures var items := [Item(2, version), AlgorithmItem(AlgorithmParams(c, k).value),
                          Item(4, k.priv.value)]
                       + if attributes.Some? then [Item(0xA0, attributes.value)] else [];
      && AllFit(items) && Item(0x30, PrintAll(items)).Fits()
      && ParsePkcs8(c, Print(Item(0x30, PrintAll(items))) + trailing)
         == if attributes.Some? && !c.attributes(attributes.value) then None
            else Some(Private(WrittenDomain(k), k.priv.value))
  {
    hide AlgorithmItem, AlgorithmParams, Print, PrintAll, ParseAlgorithm, Read, ReadInteger;
    var items := [Item(2, version), AlgorithmItem(AlgorithmParams(c, k).value),
                  Item(4, k.priv.value)]
               + if attributes.Some? then [Item(0xA0, attributes.value)] else [];
    PrintedLength(items, 2604);
    ItemRoundTrip(Item(0x30, PrintAll(items)), trailing);
    ItemsRoundTrip(items);
    AlgorithmRoundTrip(c, k);
  }

  lemma PrivateItems(c: M.Primitives, k: M.Key, algorithm: Item)
    requires k.Valid() && k.priv.Some? && algorithm.tag == SEQUENCE
    requires algorithm.Fits() && |algorithm.content| <= 2604
    requires ParseAlgorithm(c, algorithm.content) == Some(WrittenDomain(k))
    ensures PrivateFromItems(c, Pkcs8Items(algorithm, k.priv.value)) == Some(Private(WrittenDomain(k), k.priv.value))
  {
    var version: seq<byte> := [0];
    assert ReadInteger(version).Some?;
  }

  // ---------------------------------------------------------------- public keys

  // The public half, derived where only the private one is there.
  function PublicHalf(c: M.Primitives, k: M.Key): (pub: Option<seq<byte>>)
    requires c.Valid() && k.Valid()
    ensures pub.Some? ==> k.variant.Some? && |pub.value| == M.PubLen(k.variant.value)
  {
    if k.pub.Some? then k.pub
    else if k.priv.Some? then c.Derive(k.variant.value, k.priv.value)
    else None
  }

  function SpkiItems(algorithm: Item, pub: seq<byte>): (items: seq<Item>)
    requires algorithm.Fits() && |algorithm.content| <= 2604 && |pub| <= 128
    ensures AllFit(items) && forall i :: 0 <= i < |items| ==> |items[i].content| <= 2604
  {
    [algorithm, Item(BIT_STRING, BitContent(pub))]
  }

  function Spki(c: M.Primitives, k: M.Key): (r: Option<seq<byte>>)
    requires c.Valid() && k.Valid()
    ensures r.Some? <==> PublicHalf(c, k).Some? && (k.explicit ==> c.curve(k.variant.value).Some?)
    ensures r.Some? ==> r.value != []
  {
    var pub, params := PublicHalf(c, k), AlgorithmParams(c, k);
    if pub.None? || params.None? then None
    else
      var items := SpkiItems(AlgorithmItem(params.value), pub.value);
      PrintedLength(items, 2604);
      Some(Print(Item(SEQUENCE, PrintAll(items))))
  }

  datatype Public = Public(domain: Domain, octets: seq<byte>)

  // The outer item need only have the number of a sequence; what follows the two inner items, or the
  // whole, is ignored.
  function ParseSpki(c: M.Primitives, buf: seq<byte>): (r: Option<Public>)
    ensures r.Some? ==> |r.value.octets| == M.PubLen(r.value.domain.variant)
  {
    var outer := Read(buf);
    if outer.None? || outer.value.item.tag % 32 != 16 then None
    else
      var algorithm := Read(outer.value.item.content);
      if algorithm.None? || algorithm.value.item.tag != SEQUENCE then None
      else
        var key := Read(algorithm.value.rest);
        if key.None? || key.value.item.tag != BIT_STRING then None
        else PublicFromParts(c, algorithm.value.item.content, key.value.item.content)
  }

  function PublicFromParts(c: M.Primitives, algorithm: seq<byte>, key: seq<byte>): (r: Option<Public>)
    ensures r.Some? ==> |r.value.octets| == M.PubLen(r.value.domain.variant)
  {
    var octets, domain := ReadBits(key), ParseAlgorithm(c, algorithm);
    if octets.None? || domain.None? || |octets.value| != M.PubLen(domain.value.variant) then None
    else Some(Public(domain.value, octets.value))
  }

  // Reading a written public key gives its variant, its public octets, and the flags as above.
  lemma SpkiRoundTrip(c: M.Primitives, k: M.Key, trailing: seq<byte>)
    requires c.Valid() && k.Valid() && Spki(c, k).Some?
    ensures ParseSpki(c, Spki(c, k).value + trailing) == Some(Public(WrittenDomain(k), PublicHalf(c, k).value))
  {
    hide AlgorithmItem, AlgorithmParams, Print, PrintAll, ParseAlgorithm, Read;
    var pub, algorithm := PublicHalf(c, k).value, AlgorithmItem(AlgorithmParams(c, k).value);
    var items := SpkiItems(algorithm, pub);
    PrintedLength(items, 2604);
    ItemRoundTrip(Item(SEQUENCE, PrintAll(items)), trailing);
    TwoItems(items[0], items[1]);
    AlgorithmRoundTrip(c, k);
    BitsRoundTrip(pub);
  }

  lemma TwoItems(a: Item, b: Item)
    requires a.Fits() && b.Fits()
    ensures Read(PrintAll([a, b])) == Some(Element(a, Print(b)))
    ensures Read(Print(b)) == Some(Element(b, []))
  {
    var items := [a, b];
    assert items[1..] == [b] && [b][1..] == [];
    assert PrintAll([b]) == Print(b) + PrintAll([]) == Print(b);
    assert PrintAll(items) == Print(a) + PrintAll([b]);
    ItemRoundTrip(a, Print(b));
    ItemRoundTrip(b, []);
    assert Print(b) + [] == Print(b);
  }

  // A written public key is a sequence, and its octets stand at the end.
  lemma SpkiLayout(c: M.Primitives, k: M.Key)
    requires c.Valid() && k.Valid() && Spki(c, k).Some?
    ensures Spki(c, k).value[0] == SEQUENCE && EndsWith(Spki(c, k).value, PublicHalf(c, k).value)
  {
    hide EndsWith, AlgorithmItem, AlgorithmParams, PublicHalf, Print, PrintAll;
    var pub, algorithm := PublicHalf(c, k).value, AlgorithmItem(AlgorithmParams(c, k).value);
    PrintedLength(SpkiItems(algorithm, pub), 2604);
    PrintedPairEnds(algorithm, Item(BIT_STRING, BitContent(pub)));
    PrintedBitsEnd(pub);
    var content := PrintAll(SpkiItems(algorithm, pub));
    EndsWithEnd(content, Print(Item(BIT_STRING, BitContent(pub))), pub);
    PrintedItemEnds(Item(SEQUENCE, content));
    EndsWithEnd(Print(Item(SEQUENCE, content)), content, pub);
  }

  lemma PrintedItemEnds(item: Item)
    requires item.Fits()
    ensures EndsWith(Print(item), item.content)
  {
    SumEndsWith([item.tag] + PrintLength(|item.content|), item.content);
  }

  lemma PrintedPairEnds(a: Item, b: Item)
    requires a.Fits() && b.Fits()
    ensures EndsWith(PrintAll([a, b]), Print(b))
  {
    assert [a, b][1..] == [b] && [b][1..] == [];
    assert PrintAll([b]) == Print(b) + PrintAll([]) == Print(b);
    SumEndsWith(Print(a), Print(b));
  }

  lemma PrintedBitsEnd(pub: seq<byte>)
    requires |pub| <= 128
    ensures EndsWith(Print(Item(BIT_STRING, BitContent(pub))), pub)
  {
    var bits := Item(BIT_STRING, BitContent(pub));
    PrintedItemEnds(bits);
    SumEndsWith([0], pub);
    EndsWithEnd(Print(bits), bits.content, pub);
  }

  // ---------------------------------------------------------------- telling them apart

  // No octets are both: the first inner item is an integer in the one and a sequence in the other.
  lemma NeverBoth(c: M.Primitives, buf: seq<byte>)
    ensures ParsePkcs8(c, buf).None? || ParseSpki(c, buf).None?
  {
    if ParsePkcs8(c, buf).Some? {
      var content := Read(buf).value.item.content;
      assert Der.ReadAll(content).value[0] == Read(content).value.item;
    }
  }
}
