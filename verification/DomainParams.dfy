// Domain parameters of a Bign key inside an algorithm identifier: the name of a curve, or the curve
// spelled out.
module DomainParams {
  import opened Bytes
  import opened Options
  import opened Numbers
  import opened Der
  import M = BignModel

  // 1.2.112.0.2.0.34.101.45.2.1 and 1.2.112.0.2.0.34.101.45.4.1
  const PUBKEY: seq<byte> := [42, 112, 0, 2, 0, 34, 101, 45, 2, 1]
  const PRIME_FIELD: seq<byte> := [42, 112, 0, 2, 0, 34, 101, 45, 4, 1]

  // 1.2.112.0.2.0.34.101.45.3.1 to .3
  function CurveOid(v: M.Variant): (oid: seq<byte>)
    ensures |oid| == 10
  {
    match v
    case Bign256 => [42, 112, 0, 2, 0, 34, 101, 45, 3, 1]
    case Bign384 => [42, 112, 0, 2, 0, 34, 101, 45, 3, 2]
    case Bign512 => [42, 112, 0, 2, 0, 34, 101, 45, 3, 3]
  }

  // Contents octets of an object identifier whose subidentifiers take one octet each (section 8.19 of
  // ITU-T X.690).
  function OidContent(arcs: seq<nat>): (s: seq<byte>)
    requires |arcs| >= 2 && 40 * arcs[0] + arcs[1] < 128 && forall i :: 2 <= i < |arcs| ==> arcs[i] < 128
    ensures |s| == |arcs| - 1
  {
    [(40 * arcs[0] + arcs[1]) as byte] + seq(|arcs| - 2, i requires 0 <= i < |arcs| - 2 => arcs[i + 2] as byte)
  }

  lemma OidsAsRegistered()
    ensures PUBKEY == OidContent([1, 2, 112, 0, 2, 0, 34, 101, 45, 2, 1])
    ensures PRIME_FIELD == OidContent([1, 2, 112, 0, 2, 0, 34, 101, 45, 4, 1])
  {
  }

  lemma CurveOidsAsRegistered()
    ensures CurveOid(M.Bign256) == OidContent([1, 2, 112, 0, 2, 0, 34, 101, 45, 3, 1])
    ensures CurveOid(M.Bign384) == OidContent([1, 2, 112, 0, 2, 0, 34, 101, 45, 3, 2])
    ensures CurveOid(M.Bign512) == OidContent([1, 2, 112, 0, 2, 0, 34, 101, 45, 3, 3])
  {
  }

  // ---------------------------------------------------------------- named

  function VariantFromCurve(oid: seq<byte>): Option<M.Variant> {
    if oid == CurveOid(M.Bign256) then Some(M.Bign256)
    else if oid == CurveOid(M.Bign384) then Some(M.Bign384)
    else if oid == CurveOid(M.Bign512) then Some(M.Bign512)
    else None
  }

  lemma CurveOidsAreDistinct(v: M.Variant, oid: seq<byte>)
    ensures VariantFromCurve(oid) == Some(v) <==> oid == CurveOid(v)
  {
    assert CurveOid(M.Bign256)[9] == 1 && CurveOid(M.Bign384)[9] == 2 && CurveOid(M.Bign512)[9] == 3;
  }

  // ---------------------------------------------------------------- spelled out

  datatype EcParams = EcParams(
    version: int,
    fieldType: seq<byte>,
    prime: int,
    a: seq<byte>,
    b: seq<byte>,
    seed: Option<seq<byte>>,
    base: seq<byte>,
    order: int,
    cofactor: Option<int>)

  // A standard curve spelled out, with or without its cofactor.
  function Spelled(curve: M.Curve, cofactor: bool): EcParams {
    EcParams(1, PRIME_FIELD, LeValue(curve.p), curve.a, curve.b, Some(curve.seed), curve.yG, LeValue(curve.q),
             if cofactor then Some(1) else None)
  }

  function MagnitudeBits(n: int): nat {
    NumBits(if n < 0 then -n else n)
  }

  predicate MatchesParams(c: M.Primitives, v: M.Variant, p: seq<byte>, a: seq<byte>, b: seq<byte>, q: seq<byte>,
                          yG: seq<byte>, bytes: nat)
  {
    && M.PrivLen(v) == bytes
    && c.curve(v).Some?
    && var curve := c.curve(v).value;
      curve.p == p && curve.a == a && curve.b == b && curve.q == q && curve.yG == yG
  }

  function FirstMatch(c: M.Primitives, p: seq<byte>, a: seq<byte>, b: seq<byte>, q: seq<byte>, yG: seq<byte>,
      bytes: nat)
    : (r: Option<M.Variant>)
    ensures forall v :: r == Some(v) <==> MatchesParams(c, v, p, a, b, q, yG, bytes)
  {
    if MatchesParams(c, M.Bign256, p, a, b, q, yG, bytes) then Some(M.Bign256)
    else if MatchesParams(c, M.Bign384, p, a, b, q, yG, bytes) then Some(M.Bign384)
    else if MatchesParams(c, M.Bign512, p, a, b, q, yG, bytes) then Some(M.Bign512)
    else None
  }

  function VariantFromExplicit(c: M.Primitives, e: EcParams): Option<M.Variant> {
    if e.version != 1 || e.fieldType != PRIME_FIELD then None
    else
      var bits := MagnitudeBits(e.prime);
      if bits != 256 && bits != 384 && bits != 512 then None else VariantOfSize(c, e, bits / 8)
  }

  function VariantOfSize(c: M.Primitives, e: EcParams, bytes: nat): Option<M.Variant> {
    var p, q := FixedLe(e.prime, bytes), FixedLe(e.order, bytes);
    if p.None? then None
    else if |e.a| != bytes || |e.b| != bytes || |e.base| != bytes then None
    else if MagnitudeBits(e.order) != 8 * bytes || q.None? then None
    else if e.cofactor.Some? && e.cofactor.value != 1 then None
    else FirstMatch(c, p.value, e.a, e.b, q.value, e.base, bytes)
  }

  // Parameters spelled out are accepted for a variant exactly when they are its standard curve, the
  // seed aside and with the cofactor one or left out.
  lemma ExplicitMeansStandard(c: M.Primitives, v: M.Variant, e: EcParams)
    requires c.Valid()
    ensures VariantFromExplicit(c, e) == Some(v)
      <==> c.curve(v).Some? && e == Spelled(c.curve(v).value, e.cofactor.Some?).(seed := e.seed)
  {
    hide VariantOfSize, MagnitudeBits;
    var bytes := M.PrivLen(v);
    if c.curve(v).Some? && e == Spelled(c.curve(v).value, e.cofactor.Some?).(seed := e.seed) {
      SpelledHasSize(c, v, e, bytes);
      BySize(c, e, bytes);
    }
    if VariantFromExplicit(c, e) == Some(v) {
      BySize(c, e, MagnitudeBits(e.prime) / 8);
      AcceptedIsSpelled(c, v, e, MagnitudeBits(e.prime) / 8);
    }
  }

  lemma BySize(c: M.Primitives, e: EcParams, bytes: nat)
    requires e.version == 1 && e.fieldType == PRIME_FIELD && MagnitudeBits(e.prime) == 8 * bytes
    requires bytes == 32 || bytes == 48 || bytes == 64
    ensures VariantFromExplicit(c, e) == VariantOfSize(c, e, bytes)
  {
  }

  lemma AcceptedIsSpelled(c: M.Primitives, v: M.Variant, e: EcParams, bytes: nat)
    requires VariantOfSize(c, e, bytes) == Some(v)
    ensures c.curve(v).Some?
    ensures var s := Spelled(c.curve(v).value, e.cofactor.Some?);
      && e.prime == s.prime && e.a == s.a && e.b == s.b && e.base == s.base && e.order == s.order
      && e.cofactor == s.cofactor
  {
    assert MatchesParams(c, v, FixedLe(e.prime, bytes).value, e.a, e.b, FixedLe(e.order, bytes).value, e.base, bytes);
  }

  lemma SpelledHasSize(c: M.Primitives, v: M.Variant, e: EcParams, bytes: nat)
    requires c.Valid() && c.curve(v).Some? && bytes == M.PrivLen(v)
    requires e == Spelled(c.curve(v).value, e.cofactor.Some?).(seed := e.seed)
    ensures MagnitudeBits(e.prime) == 8 * bytes
    ensures VariantOfSize(c, e, bytes) == Some(v)
  {
    hide FirstMatch, VariantOfSize, FixedLe, MagnitudeBits;
    var curve := c.curve(v).value;
    assert curve.Valid(bytes);
    NumberRoundTrip(curve.p, bytes);
    NumberRoundTrip(curve.q, bytes);
    BySizeAndNumbers(c, e, bytes, curve.p, curve.q);
    assert MatchesParams(c, v, curve.p, e.a, e.b, curve.q, e.base, bytes);
  }

  lemma BySizeAndNumbers(c: M.Primitives, e: EcParams, bytes: nat, p: seq<byte>, q: seq<byte>)
    requires FixedLe(e.prime, bytes) == Some(p) && FixedLe(e.order, bytes) == Some(q)
    requires MagnitudeBits(e.order) == 8 * bytes && |e.a| == |e.b| == |e.base| == bytes
    requires e.cofactor.None? || e.cofactor.value == 1
    ensures VariantOfSize(c, e, bytes) == FirstMatch(c, p, e.a, e.b, q, e.base, bytes)
  {
    hide FirstMatch, FixedLe, MagnitudeBits;
  }

  lemma NumberRoundTrip(s: seq<byte>, bytes: nat)
    requires 0 < |s| == bytes <= 64 && s[bytes - 1] >= 128
    ensures MagnitudeBits(LeValue(s)) == 8 * bytes && FixedLe(LeValue(s), bytes) == Some(s)
  {
    FullLength(s);
    FixedLeInverse(s, LeValue(s));
    hide LeValue, LeBytes, Pow256, NumBits;
  }

  // ---------------------------------------------------------------- syntax of the spelled-out form

  ghost predicate Small(curve: M.Curve) {
    exists bytes :: bytes <= 64 && curve.Valid(bytes)
  }

  function FieldItem(curve: M.Curve): (item: Item)
    requires curve.p != [] && |curve.p| <= 64 && curve.p[|curve.p| - 1] >= 128
    ensures item.Fits() && |item.content| <= 210
  {
    FullLength(curve.p);
    var items := [Item(OBJECT, PRIME_FIELD), Item(INTEGER, IntegerContent(LeValue(curve.p)))];
    PrintedLength(items, 65);
    Item(SEQUENCE, PrintAll(items))
  }

  datatype Field = Field(fieldType: seq<byte>, prime: int)

  function ParseField(s: seq<byte>): Option<Field> {
    var items := Der.ReadAll(s);
    if items.None? || |items.value| != 2 || items.value[0].tag != OBJECT || items.value[1].tag != INTEGER then None
    else
      var prime := ReadInteger(items.value[1].content);
      if prime.None? then None else Some(Field(items.value[0].content, prime.value))
  }

  function CurveItem(curve: M.Curve): (item: Item)
    requires |curve.a| <= 64 && |curve.b| <= 64 && |curve.seed| == 8
    ensures item.Fits() && |item.content| <= 210
  {
    var items := [Item(OCTET_STRING, curve.a), Item(OCTET_STRING, curve.b), Item(BIT_STRING, BitContent(curve.seed))];
    PrintedLength(items, 64);
    Item(SEQUENCE, PrintAll(items))
  }

  datatype Equation = Equation(a: seq<byte>, b: seq<byte>, seed: Option<seq<byte>>)

  function ParseCurve(s: seq<byte>): Option<Equation> {
    var items := Der.ReadAll(s);
    if items.None? then None else EquationFrom(items.value)
  }

  function EquationFrom(items: seq<Item>): Option<Equation> {
    if |items| < 2 || |items| > 3 || items[0].tag != OCTET_STRING || items[1].tag != OCTET_STRING then None
    else if |items| == 2 then Some(Equation(items[0].content, items[1].content, None))
    else if items[2].tag != BIT_STRING then None
    else
      var seed := ReadBits(items[2].content);
      if seed.None? then None else Some(Equation(items[0].content, items[1].content, seed))
  }

  function EcList(one: Item, field: Item, curve: Item, base: seq<byte>, order: seq<byte>,
      cofactor: bool): (items: seq<Item>)
    requires one.Fits() && field.Fits() && curve.Fits() && |base| <= 210 && |order| <= 210
    requires |one.content| <= 210 && |field.content| <= 210 && |curve.content| <= 210
    ensures AllFit(items) && forall i :: 0 <= i < |items| ==> |items[i].content| <= 210
    ensures |items| == if cofactor then 6 else 5
  {
    var items := [one, field, curve, Item(OCTET_STRING, base), Item(INTEGER, order)];
    if cofactor then items + [one] else items
  }

  const ONE: Item := Item(INTEGER, [1])

  function EcItems(curve: M.Curve, cofactor: bool): (items: seq<Item>)
    requires Small(curve)
    ensures AllFit(items)
    ensures forall i :: 0 <= i < |items| ==> |items[i].content| <= 210
    ensures |items| == if cofactor then 6 else 5
  {
    FullLength(curve.q);
    EcList(ONE, FieldItem(curve), CurveItem(curve), curve.yG, IntegerContent(LeValue(curve.q)), cofactor)
  }

  function Assemble(items: seq<Item>): Option<EcParams> {
    if |items| < 5 || |items| > 6 then None
    else if items[0].tag != INTEGER || items[1].tag != SEQUENCE || items[2].tag != SEQUENCE
         || items[3].tag != OCTET_STRING || items[4].tag != INTEGER || (|items| == 6 && items[5].tag != INTEGER) then
      None
    else
      var version, order := ReadInteger(items[0].content), ReadInteger(items[4].content);
      var field, equation := ParseField(items[1].content), ParseCurve(items[2].content);
      var cofactor := if |items| == 6 then ReadInteger(items[5].content) else None;
      if version.None? || order.None? || field.None? || equation.None? || (|items| == 6 && cofactor.None?) then None
      else
        Some(EcParams(version.value, field.value.fieldType, field.value.prime, equation.value.a, equation.value.b,
                      equation.value.seed, items[3].content, order.value, cofactor))
  }

  function ParseEcParams(s: seq<byte>): Option<EcParams> {
    var items := Der.ReadAll(s);
    if items.None? then None else Assemble(items.value)
  }

  lemma FieldRoundTrip(curve: M.Curve)
    requires curve.p != [] && |curve.p| <= 64 && curve.p[|curve.p| - 1] >= 128
    ensures ParseField(FieldItem(curve).content) == Some(Field(PRIME_FIELD, LeValue(curve.p)))
  {
    FullLength(curve.p);
    var items := [Item(OBJECT, PRIME_FIELD), Item(INTEGER, IntegerContent(LeValue(curve.p)))];
    ItemsRoundTrip(items);
    IntegerRoundTrip(LeValue(curve.p));
  }

  lemma CurveRoundTrip(curve: M.Curve)
    requires |curve.a| <= 64 && |curve.b| <= 64 && |curve.seed| == 8
    ensures ParseCurve(CurveItem(curve).content) == Some(Equation(curve.a, curve.b, Some(curve.seed)))
  {
    var bits := BitContent(curve.seed);
    BitsRoundTrip(curve.seed);
    ThreeItems(curve.a, curve.b, bits, curve.seed);
  }

  lemma ThreeItems(a: seq<byte>, b: seq<byte>, bits: seq<byte>, seed: seq<byte>)
    requires |a| <= 64 && |b| <= 64 && |bits| <= 64 && ReadBits(bits) == Some(seed)
    ensures ParseCurve(PrintAll([Item(OCTET_STRING, a), Item(OCTET_STRING, b), Item(BIT_STRING, bits)]))
         == Some(Equation(a, b, Some(seed)))
  {
    hide ReadBits, PrintAll;
    ItemsRoundTrip([Item(OCTET_STRING, a), Item(OCTET_STRING, b), Item(BIT_STRING, bits)]);
  }

  lemma AssembleList(one: Item, field: Item, curve: Item, base: seq<byte>, order: seq<byte>, cofactor: bool,
                     f: Field, e: Equation, q: int)
    requires one.tag == INTEGER && ReadInteger(one.content) == Some(1)
    requires field.tag == SEQUENCE && ParseField(field.content) == Some(f)
    requires curve.tag == SEQUENCE && ParseCurve(curve.content) == Some(e)
    requires ReadInteger(order) == Some(q)
    requires one.Fits() && field.Fits() && curve.Fits() && |base| <= 210 && |order| <= 210
    requires |one.content| <= 210 && |field.content| <= 210 && |curve.content| <= 210
    ensures Assemble(EcList(one, field, curve, base, order, cofactor))
         == Some(EcParams(1, f.fieldType, f.prime, e.a, e.b, e.seed, base, q, if cofactor then Some(1) else None))
  {
  }

  lemma OneIsOne()
    ensures ReadInteger(ONE.content) == Some(1)
  {
    assert ONE.content[..0] == [];
  }

  lemma EcParamsRoundTrip(curve: M.Curve, cofactor: bool)
    requires Small(curve)
    ensures ParseEcParams(PrintAll(EcItems(curve, cofactor))) == Some(Spelled(curve, cofactor))
  {
    ItemsRoundTrip(EcItems(curve, cofactor));
    EcAssembled(curve, cofactor);
  }

  lemma EcAssembled(curve: M.Curve, cofactor: bool)
    requires Small(curve)
    ensures Assemble(EcItems(curve, cofactor)) == Some(Spelled(curve, cofactor))
  {
    FullLength(curve.q);
    FieldRoundTrip(curve);
    CurveRoundTrip(curve);
    IntegerRoundTrip(LeValue(curve.q));
    OneIsOne();
    AssembleList(ONE, FieldItem(curve), CurveItem(curve), curve.yG, IntegerContent(LeValue(curve.q)), cofactor,
                 Field(PRIME_FIELD, LeValue(curve.p)), Equation(curve.a, curve.b, Some(curve.seed)), LeValue(curve.q));
  }

  // ---------------------------------------------------------------- algorithm parameters

  // What the parameters of an algorithm identifier tell.
  datatype Domain = Domain(variant: M.Variant, explicit: bool, cofactor: bool)

  function AlgorithmParams(c: M.Primitives, k: M.Key): (r: Option<Item>)
    requires c.Valid()
    ensures r.Some? ==> r.value.Fits() && |r.value.content| <= 1296
    ensures r.Some? <==> k.variant.Some? && (k.explicit ==> c.curve(k.variant.value).Some?)
  {
    if k.variant.None? then None
    else if !k.explicit then Some(Item(OBJECT, CurveOid(k.variant.value)))
    else
      var curve := c.curve(k.variant.value);
      if curve.None? then None
      else
        CurveIsSmall(c, k.variant.value);
        var items := EcItems(curve.value, k.cofactor);
        PrintedLength(items, 210);
        Some(Item(SEQUENCE, PrintAll(items)))
  }

  lemma CurveIsSmall(c: M.Primitives, v: M.Variant)
    requires c.Valid() && c.curve(v).Some?
    ensures Small(c.curve(v).value)
  {
    assert c.curve(v).value.Valid(M.PrivLen(v));
  }

  function DomainFromParams(c: M.Primitives, params: Option<Item>): Option<Domain> {
    if params.None? then None
    else if params.value.tag == OBJECT then
      var v := VariantFromCurve(params.value.content);
      if v.None? then None else Some(Domain(v.value, false, false))
    else if params.value.tag == SEQUENCE then DomainFromSpelled(c, params.value.content)
    else None
  }

  function DomainFromSpelled(c: M.Primitives, s: seq<byte>): Option<Domain> {
    var e := ParseEcParams(s);
    if e.None? then None
    else
      var v := VariantFromExplicit(c, e.value);
      if v.None? then None else Some(Domain(v.value, true, e.value.cofactor.Some?))
  }

  // What a key of a variant is written as: the explicit flag survives, and the cofactor flag where the
  // explicit one is up.
  function WrittenDomain(k: M.Key): Domain
    requires k.variant.Some?
  {
    Domain(k.variant.value, k.explicit, k.explicit && k.cofactor)
  }

  lemma DomainRoundTrip(c: M.Primitives, k: M.Key)
    requires c.Valid() && AlgorithmParams(c, k).Some?
    ensures DomainFromParams(c, AlgorithmParams(c, k)) == Some(WrittenDomain(k))
  {
    var v := k.variant.value;
    if k.explicit {
      var curve := c.curve(v).value;
      CurveIsSmall(c, v);
      EcParamsRoundTrip(curve, k.cofactor);
      SpelledRoundTrip(c, v, k.cofactor, PrintAll(EcItems(curve, k.cofactor)));
    } else {
      CurveOidsAreDistinct(v, CurveOid(v));
    }
  }

  lemma SpelledRoundTrip(c: M.Primitives, v: M.Variant, cofactor: bool, s: seq<byte>)
    requires c.Valid() && c.curve(v).Some? && ParseEcParams(s) == Some(Spelled(c.curve(v).value, cofactor))
    ensures DomainFromSpelled(c, s) == Some(Domain(v, true, cofactor))
  {
    ExplicitMeansStandard(c, v, Spelled(c.curve(v).value, cofactor));
  }
}
