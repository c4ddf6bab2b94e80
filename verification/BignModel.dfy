// Bign keys (STB 34.101.45) as values: variants, the two halves of a key, and what importing,
// exporting, duplicating and setting parameters make of them.
module BignModel {
  import opened Bytes
  import opened Options

  // ---------------------------------------------------------------- variants

  datatype Variant = Bign256 | Bign384 | Bign512

  function VariantName(v: Variant): string {
    match v
    case Bign256 => "bign-256"
    case Bign384 => "bign-384"
    case Bign512 => "bign-512"
  }

  function CurveName(v: Variant): string {
    match v
    case Bign256 => "1.2.112.0.2.0.34.101.45.3.1"
    case Bign384 => "1.2.112.0.2.0.34.101.45.3.2"
    case Bign512 => "1.2.112.0.2.0.34.101.45.3.3"
  }

  predicate Matches(v: Variant, name: string) {
    name == VariantName(v) || name == CurveName(v)
  }

  function VariantFromName(name: string): Option<Variant> {
    if Matches(Bign256, name) then Some(Bign256)
    else if Matches(Bign384, name) then Some(Bign384)
    else if Matches(Bign512, name) then Some(Bign512)
    else None
  }

  // The table is unambiguous: a name means a variant exactly when it is one of its two names.
  lemma NamesAreDistinct(v: Variant, name: string)
    ensures VariantFromName(name) == Some(v) <==> Matches(v, name)
  {
    var c := CurveName(v);
    assert |VariantName(v)| == 8 && |c| == 27;
    if Matches(v, name) {
      if |name| == 8 {
        assert name[5] == VariantName(v)[5];
        assert VariantName(Bign256)[5] == '2' && VariantName(Bign384)[5] == '3' && VariantName(Bign512)[5] == '5';
      } else {
        assert name[26] == c[26];
        assert CurveName(Bign256)[26] == '1' && CurveName(Bign384)[26] == '2' && CurveName(Bign512)[26] == '3';
      }
    }
  }

  // What each name means.
  lemma NamesOfVariants()
    ensures VariantFromName("bign-256") == VariantFromName("1.2.112.0.2.0.34.101.45.3.1") == Some(Bign256)
    ensures VariantFromName("bign-384") == VariantFromName("1.2.112.0.2.0.34.101.45.3.2") == Some(Bign384)
    ensures VariantFromName("bign-512") == VariantFromName("1.2.112.0.2.0.34.101.45.3.3") == Some(Bign512)
  {
    hide VariantFromName;
    NamesAreDistinct(Bign256, "bign-256");
    NamesAreDistinct(Bign256, "1.2.112.0.2.0.34.101.45.3.1");
    NamesAreDistinct(Bign384, "bign-384");
    NamesAreDistinct(Bign384, "1.2.112.0.2.0.34.101.45.3.2");
    NamesAreDistinct(Bign512, "bign-512");
    NamesAreDistinct(Bign512, "1.2.112.0.2.0.34.101.45.3.3");
  }

  function Bits(v: Variant): nat {
    match v
    case Bign256 => 256
    case Bign384 => 384
    case Bign512 => 512
  }

  function PrivLen(v: Variant): nat {
    Bits(v) / 8
  }

  function PubLen(v: Variant): nat {
    PrivLen(v) * 2
  }

  // ---------------------------------------------------------------- primitives

  // Standard parameters of a curve, little-endian.
  datatype Curve = Curve(p: seq<byte>, a: seq<byte>, b: seq<byte>, q: seq<byte>, yG: seq<byte>, seed: seq<byte>) {
    predicate Valid(bytes: nat) {
      && |p| == |a| == |b| == |q| == |yG| == bytes > 0
      && |seed| == 8
      && p[bytes - 1] >= 128 && q[bytes - 1] >= 128
    }
  }

  // The curve table and the public key of a private key, both partial; and which contents of the
  // attributes of a private key are well formed.
  datatype Primitives = Primitives(
    curve: Variant -> Option<Curve>,
    multiply: (Variant, seq<byte>) -> Option<seq<byte>>,
    attributes: seq<byte> -> bool)
  {
    ghost predicate Valid() {
      && (forall v :: curve(v).Some? ==> curve(v).value.Valid(PrivLen(v)))
      && (forall v, priv :: multiply(v, priv).Some? ==> |multiply(v, priv).value| == PubLen(v))
    }

    function Derive(v: Variant, priv: seq<byte>): (pub: Option<seq<byte>>)
      ensures Valid() && pub.Some? ==> |pub.value| == PubLen(v)
    {
      if curve(v).None? then None else multiply(v, priv)
    }
  }

  // A public key is derived only on a curve that is known.
  lemma WhenDerives(c: Primitives, v: Variant, priv: seq<byte>, pub: seq<byte>)
    ensures c.Derive(v, priv) == Some(pub) <==> c.curve(v).Some? && c.multiply(v, priv) == Some(pub)
  {
  }

  // ---------------------------------------------------------------- keys

  datatype Key = Key(
    variant: Option<Variant>,
    priv: Option<seq<byte>>,
    pub: Option<seq<byte>>,
    explicit: bool,
    cofactor: bool)
  {
    predicate Valid() {
      && (priv.Some? ==> variant.Some? && |priv.value| == PrivLen(variant.value))
      && (pub.Some? ==> variant.Some? && |pub.value| == PubLen(variant.value))
    }

    // Both halves are there and belong together.
    predicate Coherent(c: Primitives) {
      variant.Some? && priv.Some? && pub.Some? && c.Derive(variant.value, priv.value) == pub
    }

    // The halves belong together if both are there.
    predicate Sound(c: Primitives) {
      priv.Some? && pub.Some? ==> Coherent(c)
    }
  }

  function NewKey(variant: Option<Variant>): (k: Key)
    ensures k.Valid()
  {
    Key(variant, None, None, false, false)
  }

  datatype Selection = Selection(priv: bool, pub: bool, domain: bool)

  const KEYPAIR := Selection(true, true, false)
  const EVERYTHING := Selection(true, true, true)

  predicate Has(k: Key, s: Selection) {
    k.variant.Some? && (s.pub ==> k.pub.Some?) && (s.priv ==> k.priv.Some?)
  }

  predicate Match(k: Key, l: Key, s: Selection) {
    && k.variant.Some? && k.variant == l.variant
    && (s.priv ==> k.priv.Some? && k.priv == l.priv)
    && (s.pub ==> k.pub.Some? && k.pub == l.pub)
  }

  predicate Validate(c: Primitives, k: Key, s: Selection) {
    Has(k, s) && (s.priv && s.pub ==> k.Coherent(c))
  }

  // The selected part of a key.
  function Part(k: Key, s: Selection): Key {
    Key(k.variant, if s.priv then k.priv else None, if s.pub then k.pub else None, false, false)
  }

  // Keys match exactly when the one has what is selected and the selected parts are equal.
  lemma MatchIsEqualityOfParts(k: Key, l: Key, s: Selection)
    ensures Match(k, l, s) <==> Has(k, s) && Part(k, s) == Part(l, s)
    ensures Has(k, s) <==> k.variant.Some? && (s.priv ==> Part(k, s).priv.Some?) && (s.pub ==> Part(k, s).pub.Some?)
  {
  }

  function EnsurePublic(c: Primitives, k: Key): (r: Option<Key>)
    ensures r.Some? ==> r.value.pub.Some? && r.value == k.(pub := r.value.pub)
    ensures r.Some? && k.Valid() && c.Valid() ==> r.value.Valid()
  {
    if k.variant.None? then None
    else if k.pub.Some? then Some(k)
    else if k.priv.None? then None
    else
      var derived := c.Derive(k.variant.value, k.priv.value);
      if derived.None? then None else Some(k.(pub := derived))
  }

  // ---------------------------------------------------------------- parameters

  // A parameter may be missing, or there but not of the type asked for.
  datatype Param<T> = Absent | Unreadable | Given(value: T)

  datatype Encoding = Explicit | NamedCurve | OtherEncoding
  datatype Detail = Specified | Cofactor | OtherDetail

  datatype Params = Params(
    encoding: Param<Encoding>,
    detail: Param<Detail>,
    group: Param<string>,
    priv: Param<seq<byte>>,
    pub: Param<seq<byte>>,
    encodedPub: Param<seq<byte>>)
  {
    // The public key parameter that counts.
    function PubIn(): Param<seq<byte>> {
      if pub.Absent? then encodedPub else pub
    }
  }

  // The encoding flags after the encoding parameters; when one of them is refused, those before it
  // have taken effect.
  datatype Flags = Flags(ok: bool, explicit: bool, cofactor: bool)

  function ApplyEncoding(explicit: bool, cofactor: bool, p: Params): Flags {
    if p.encoding.Unreadable? || p.encoding == Given(OtherEncoding) then Flags(false, explicit, cofactor)
    else
      var now := if p.encoding.Absent? then explicit else p.encoding.value == Explicit;
      match p.detail
      case Absent => Flags(true, now, cofactor)
      case Unreadable => Flags(false, now, cofactor)
      case Given(Specified) => Flags(true, true, cofactor)
      case Given(Cofactor) => Flags(true, now, true)
      case Given(OtherDetail) => Flags(false, now, cofactor)
  }

  // The variant of a key once a group parameter is heeded; a variant that is set is not replaced.
  function ResolveVariant(variant: Option<Variant>, group: Param<string>): Option<Variant> {
    match group
    case Absent => variant
    case Unreadable => None
    case Given(name) =>
      var named := VariantFromName(name);
      if variant.Some? && variant != named then None else named
  }

  predicate Sized(p: Param<seq<byte>>, n: nat) {
    !p.Unreadable? && (p.Given? ==> |p.value| == n)
  }

  // ---------------------------------------------------------------- importing

  // The new key with what the parameters bring; a private half displaces an older public one.
  function Taken(k: Key, p: Params): (r: Option<Key>)
    ensures r.Some? && k.Valid() ==> r.value.Valid()
    ensures r.Some? ==> r.value.variant.Some? && (k.variant.Some? ==> r.value.variant == k.variant)
  {
    var flags := ApplyEncoding(k.explicit, k.cofactor, p);
    var variant := ResolveVariant(k.variant, p.group);
    if !flags.ok || variant.None? then None
    else if !Sized(p.priv, PrivLen(variant.value)) || !Sized(p.PubIn(), PubLen(variant.value)) then None
    else
      var priv := if p.priv.Given? then Some(p.priv.value) else k.priv;
      var pub := if p.PubIn().Given? then Some(p.PubIn().value) else if p.priv.Given? then None else k.pub;
      Some(Key(variant, priv, pub, flags.explicit, flags.cofactor))
  }

  // The new key with the halves that were asked for; haveIn tells whether any half came in.
  function Completed(c: Primitives, k: Key, s: Selection, haveIn: bool): (r: Option<Key>)
    ensures r.Some? && k.Valid() && c.Valid() ==> r.value.Valid()
    ensures r.Some? ==> r.value == k.(pub := r.value.pub)
  {
    if s.priv && k.priv.None? then None
    else
      var filled := if s.pub then EnsurePublic(c, k) else Some(k);
      if filled.None? then None
      else if !haveIn && !s.domain then None
      else if s.priv && s.pub && !filled.value.Coherent(c) then None
      else filled
  }

  // A variant that is set never changes. Where both halves are asked for, the public half is the one
  // derived from the private half. After a private key alone comes in no older public key is visible:
  // there is none, or, where one is asked for, the one of the new private key.
  function Imported(c: Primitives, k: Key, s: Selection, p: Params): (r: Option<Key>)
    ensures r.Some? && k.Valid() && c.Valid() ==> r.value.Valid()
    ensures r.Some? ==> r.value.variant.Some? && (k.variant.Some? ==> r.value.variant == k.variant)
    ensures r.Some? && s.priv && s.pub ==> r.value.Coherent(c)
    ensures r.Some? && p.priv.Given? ==> r.value.priv == Some(p.priv.value)
    ensures r.Some? && p.priv.Given? && p.PubIn().Absent? ==>
      r.value.pub == if s.pub then c.Derive(r.value.variant.value, p.priv.value) else None
  {
    var taken := Taken(k, p);
    if taken.None? then None else Completed(c, taken.value, s, p.priv.Given? || p.PubIn().Given?)
  }

  // The encoding parameters are ones that an import or a setting takes.
  predicate EncodingFits(p: Params) {
    && !p.encoding.Unreadable? && p.encoding != Given(OtherEncoding)
    && !p.detail.Unreadable? && p.detail != Given(OtherDetail)
  }

  // The parameters can be read, agree with the variant of the key, and bring halves of its lengths.
  predicate Acceptable(k: Key, p: Params) {
    var v := ResolveVariant(k.variant, p.group);
    EncodingFits(p) && v.Some? && Sized(p.priv, PrivLen(v.value)) && Sized(p.PubIn(), PubLen(v.value))
  }

  // A public key comes in, not both halves are asked for, and the private half, old or coming in with
  // it, derives another one.
  predicate Mismatch(c: Primitives, k: Key, s: Selection, p: Params) {
    var v, priv := ResolveVariant(k.variant, p.group), if p.priv.Given? then Some(p.priv.value) else k.priv;
    && p.PubIn().Given? && !(s.priv && s.pub)
    && v.Some? && priv.Some? && c.Derive(v.value, priv.value) != Some(p.PubIn().value)
  }

  // From a sound key, an import leaves an unsound one exactly when its parameters are acceptable and
  // bring such a mismatch.
  lemma WhenImportIsSound(c: Primitives, k: Key, s: Selection, p: Params)
    requires k.Sound(c)
    ensures Imported(c, k, s, p).GetOr(k).Sound(c) <==> !(Acceptable(k, p) && Mismatch(c, k, s, p))
  {
    assert Acceptable(k, p) <==> Taken(k, p).Some?;
  }

  // A group parameter settles for a variant when it is one of its names and no other variant is set.
  lemma WhenVariantResolves(variant: Option<Variant>, group: Param<string>, v: Variant)
    ensures ResolveVariant(variant, group) == Some(v) <==>
      if group.Absent? then variant == Some(v)
      else group.Given? && Matches(v, group.value) && (variant.None? || variant == Some(v))
  {
    if group.Given? {
      NamesAreDistinct(v, group.value);
    }
    hide VariantFromName, Matches;
  }

  // The halves and flags that parameters bring: the encoded public key counts only where there is no other,
  // and a private half alone displaces an older public one.
  function Brought(k: Key, v: Variant, p: Params): Key {
    Key(Some(v),
        if p.priv.Given? then Some(p.priv.value) else k.priv,
        if p.pub.Given? then Some(p.pub.value)
        else if p.pub.Absent? && p.encodedPub.Given? then Some(p.encodedPub.value)
        else if p.priv.Given? then None else k.pub,
        p.detail == Given(Specified) || (if p.encoding.Given? then p.encoding.value == Explicit else k.explicit),
        p.detail == Given(Cofactor) || k.cofactor)
  }

  lemma WhenTaken(k: Key, p: Params)
    ensures Taken(k, p).Some? <==> Acceptable(k, p)
    ensures Taken(k, p).Some? ==> Taken(k, p) == Some(Brought(k, ResolveVariant(k.variant, p.group).value, p))
  {
    hide ResolveVariant;
  }

  // The key that an import makes: what is brought, with the public half derived where it is asked for and
  // missing.
  function Merged(c: Primitives, k: Key, v: Variant, s: Selection, p: Params): Key {
    var b := Brought(k, v, p);
    if s.pub && b.pub.None? && b.priv.Some? then b.(pub := c.Derive(v, b.priv.value)) else b
  }

  // An import succeeds exactly when its parameters are acceptable, it brings a half or the domain is asked
  // for, and the key it makes has what is selected, the halves belonging together where both are.
  lemma ImportOutcome(c: Primitives, k: Key, s: Selection, p: Params)
    ensures Imported(c, k, s, p).Some? <==>
      && Acceptable(k, p)
      && (p.priv.Given? || p.pub.Given? || p.encodedPub.Given? || s.domain)
      && Validate(c, Merged(c, k, ResolveVariant(k.variant, p.group).value, s, p), s)
    ensures Imported(c, k, s, p).Some? ==>
      Imported(c, k, s, p) == Some(Merged(c, k, ResolveVariant(k.variant, p.group).value, s, p))
  {
    WhenTaken(k, p);
    if Acceptable(k, p) {
      assert p.pub.Unreadable? ==> p.PubIn().Unreadable?;
      hide ResolveVariant, Taken, Brought;
    }
  }

  // ---------------------------------------------------------------- exporting

  datatype Export = Export(key: Key, params: Params)

  // The parameters handed out, and the key, whose public half may have been derived for the occasion.
  function Exported(c: Primitives, k: Key, s: Selection): (r: Option<Export>)
    ensures r.Some? && k.Valid() && c.Valid() ==> r.value.key.Valid()
  {
    if k.variant.None? then None
    else
      var filled := if s.pub then EnsurePublic(c, k) else Some(k);
      if filled.None? || (s.priv && k.priv.None?) then None
      else
        var key := filled.value;
        var pub := if s.pub then Given(key.pub.value) else Absent;
        Some(Export(key, Params(
          if s.domain then Given(if k.explicit then Explicit else NamedCurve) else Absent,
          Absent,
          if s.domain then Given(CurveName(k.variant.value)) else Absent,
          if s.priv then Given(k.priv.value) else Absent,
          pub, pub)))
  }

  // The public half of a key, derived where only the private one is there.
  function PublicOf(c: Primitives, k: Key): Option<seq<byte>> {
    if k.pub.Some? then k.pub
    else if k.variant.Some? && k.priv.Some? then c.Derive(k.variant.value, k.priv.value)
    else None
  }

  // Nothing is handed out that is not selected: an export succeeds exactly when the key has, or derives,
  // what is selected, and gives each selected part and no other.
  lemma ExportOutcome(c: Primitives, k: Key, s: Selection)
    ensures Exported(c, k, s).Some? <==>
      k.variant.Some? && (s.priv ==> k.priv.Some?) && (s.pub ==> PublicOf(c, k).Some?)
    ensures Exported(c, k, s).Some? ==>
      var r := Exported(c, k, s).value;
      && r.key == (if s.pub then k.(pub := PublicOf(c, k)) else k)
      && r.params.priv == (if s.priv then Given(k.priv.value) else Absent)
      && r.params.pub == r.params.encodedPub == (if s.pub then Given(PublicOf(c, k).value) else Absent)
      && r.params.group == (if s.domain then Given(CurveName(k.variant.value)) else Absent)
      && r.params.encoding == (if s.domain then Given(if k.explicit then Explicit else NamedCurve) else Absent)
      && r.params.detail == Absent
  {
  }

  // A coherent key is complete, whatever is asked for.
  lemma CoherentIsComplete(c: Primitives, k: Key, s: Selection)
    requires k.Coherent(c)
    ensures Completed(c, k, s, true) == Some(k)
  {
  }

  // What a coherent key exports, another key of no other variant takes in whole: variant, both
  // halves and the explicit flag; its own cofactor flag stays.
  lemma ExportImport(c: Primitives, k: Key, into: Key)
    requires k.Valid() && k.Coherent(c)
    requires into.variant.None? || into.variant == k.variant
    ensures Exported(c, k, EVERYTHING).Some?
    ensures Imported(c, into, EVERYTHING, Exported(c, k, EVERYTHING).value.params)
         == Some(k.(cofactor := into.cofactor))
  {
    var p := Exported(c, k, EVERYTHING).value.params;
    NamesAreDistinct(k.variant.value, CurveName(k.variant.value));
    hide VariantFromName, CurveName, Completed;
    assert Taken(into, p) == Some(k.(cofactor := into.cofactor));
    CoherentIsComplete(c, k.(cofactor := into.cofactor), EVERYTHING);
  }

  // Exported in part, the key comes back whole: the private half and the domain suffice, the public
  // half being derived again.
  lemma ExportImportPrivate(c: Primitives, k: Key, into: Key)
    requires k.Valid() && k.Coherent(c)
    requires into.variant.None? || into.variant == k.variant
    ensures var s := Selection(true, false, true);
      && Exported(c, k, s).Some?
      && Imported(c, into, EVERYTHING, Exported(c, k, s).value.params) == Some(k.(cofactor := into.cofactor))
  {
    var p := Exported(c, k, Selection(true, false, true)).value.params;
    NamesAreDistinct(k.variant.value, CurveName(k.variant.value));
    hide VariantFromName, CurveName, Completed;
    assert Taken(into, p) == Some(k.(cofactor := into.cofactor, pub := None));
    PrivateIsCompleted(c, k.(cofactor := into.cofactor));
  }

  lemma PrivateIsCompleted(c: Primitives, k: Key)
    requires k.Coherent(c)
    ensures Completed(c, k.(pub := None), EVERYTHING, true) == Some(k)
  {
  }

  // ---------------------------------------------------------------- duplicating

  // A duplicate agrees with the key on every selected half the key has, keeps nothing that was not
  // selected, and is as sound as the key.
  function Duplicated(c: Primitives, k: Key, s: Selection): (r: Option<Key>)
    ensures r.Some? && k.Valid() && c.Valid() ==> r.value.Valid()
    ensures r.Some? ==> forall t: Selection ::
      Has(k, t) && (t.priv ==> s.priv) && (t.pub ==> s.pub) ==> Match(k, r.value, t)
    ensures r.Some? ==> (!s.priv ==> r.value.priv.None?) && (!s.pub ==> r.value.pub.None?)
    ensures r.Some? ==> r.value.explicit == k.explicit && r.value.cofactor == k.cofactor
    ensures r.Some? && k.Sound(c) ==> r.value.Sound(c)
  {
    if k.variant.None? then None
    else
      var copy := k.(priv := if s.priv then k.priv else None, pub := if s.pub then k.pub else None);
      if s.pub && copy.pub.None? && copy.priv.Some? then EnsurePublic(c, copy) else Some(copy)
  }

  // A duplicate is the selected part with the flags, the public half derived where both halves are selected
  // and only the private one is there; there is none exactly without a variant or when that fails.
  lemma DuplicateOutcome(c: Primitives, k: Key, s: Selection)
    ensures var derives := s.priv && s.pub && k.pub.None? && k.priv.Some?;
      var part := Part(if derives then k.(pub := PublicOf(c, k)) else k, s);
      && (Duplicated(c, k, s).Some? <==> k.variant.Some? && (derives ==> PublicOf(c, k).Some?))
      && (Duplicated(c, k, s).Some? ==>
            Duplicated(c, k, s).value == part.(explicit := k.explicit, cofactor := k.cofactor))
  {
  }

  // ---------------------------------------------------------------- setting parameters

  function SelectionOf(p: Params): Selection {
    Selection(!p.priv.Absent?, !p.pub.Absent? || !p.encodedPub.Absent?, !p.group.Absent?)
  }

  datatype Outcome = Outcome(ok: bool, key: Key)

  // The encoding parameters ask for the flags the key has: they are refused at once, or the explicit
  // flag they name last, if any, and the cofactor flag, if they name it, are those of the key.
  predicate AsksForNothingNew(k: Key, p: Params) {
    || p.encoding.Unreadable? || p.encoding == Given(OtherEncoding)
    || (&& (if p.detail == Given(Specified) then k.explicit
            else p.encoding.Given? ==> k.explicit == (p.encoding.value == Explicit))
        && (p.detail == Given(Cofactor) ==> k.cofactor))
  }

  // Refused parameters leave the variant and the halves alone, but not the encoding flags: the key
  // is unchanged exactly when the encoding parameters ask for the flags it has.
  function SetParams(c: Primitives, k: Key, p: Params): (o: Outcome)
    ensures k.Valid() && c.Valid() ==> o.key.Valid()
    ensures !o.ok ==> o.key == k.(explicit := o.key.explicit, cofactor := o.key.cofactor)
    ensures !o.ok ==> (o.key == k <==> AsksForNothingNew(k, p))
  {
    var flags := ApplyEncoding(k.explicit, k.cofactor, p);
    var flagged := k.(explicit := flags.explicit, cofactor := flags.cofactor);
    var s := SelectionOf(p);
    if !flags.ok then Outcome(false, flagged)
    else if s == Selection(false, false, false) then Outcome(true, flagged)
    else
      var r := Imported(c, flagged, s, p);
      Outcome(r.Some?, r.GetOr(flagged))
  }

  // Setting parameters is importing what is passed, or, where neither a half nor a group is, taking the
  // flags.
  lemma SetParamsOutcome(c: Primitives, k: Key, p: Params)
    ensures var s, o := SelectionOf(p), SetParams(c, k, p);
      if s == Selection(false, false, false) then
        && (o.ok <==> EncodingFits(p))
        && (o.ok ==> o.key == k.(explicit := p.detail == Given(Specified)
                                   || (if p.encoding.Given? then p.encoding.value == Explicit else k.explicit),
                                 cofactor := p.detail == Given(Cofactor) || k.cofactor))
      else
        && (o.ok <==> Imported(c, k, s, p).Some?)
        && (o.ok ==> Some(o.key) == Imported(c, k, s, p))
  {
    TakenOnFlags(k, p);
    assert !ApplyEncoding(k.explicit, k.cofactor, p).ok ==> Taken(k, p).None?;
    hide Taken, Completed;
  }

  lemma TakenOnFlags(k: Key, p: Params)
    ensures var flags := ApplyEncoding(k.explicit, k.cofactor, p);
      Taken(k.(explicit := flags.explicit, cofactor := flags.cofactor), p) == Taken(k, p)
  {
    hide ResolveVariant, Params.PubIn;
  }

  lemma RefusedParamsExample(c: Primitives)
    ensures var k := NewKey(Some(Bign256));
      var p := Params(Given(Explicit), Absent, Given("bign-384"), Absent, Absent, Absent);
      var o := SetParams(c, k, p);
      !o.ok && o.key == k.(explicit := true)
  {
    NamesAreDistinct(Bign384, VariantName(Bign384));
  }

  // ---------------------------------------------------------------- runs

  datatype Command =
    | Import(s: Selection, p: Params)
    | Set(p: Params)
    | ExportAs(s: Selection)

  function Step(c: Primitives, k: Key, command: Command): (r: Key)
    ensures k.Valid() && c.Valid() ==> r.Valid()
  {
    match command
    case Import(s, p) => Imported(c, k, s, p).GetOr(k)
    case Set(p) => SetParams(c, k, p).key
    case ExportAs(s) =>
      var r := Exported(c, k, s);
      if r.Some? then r.value.key else k
  }

  function Run(c: Primitives, k: Key, commands: seq<Command>): Key
    decreases |commands|
  {
    if commands == [] then k else Run(c, Step(c, k, commands[0]), commands[1..])
  }

  lemma {:induction false} RunKeepsVariant(c: Primitives, k: Key, commands: seq<Command>)
    requires k.variant.Some?
    ensures Run(c, k, commands).variant == k.variant
    decreases |commands|
  {
    if commands != [] {
      RunKeepsVariant(c, Step(c, k, commands[0]), commands[1..]);
    }
  }

  predicate Breaks(c: Primitives, k: Key, command: Command) {
    match command
    case Import(s, p) => Acceptable(k, p) && Mismatch(c, k, s, p)
    case Set(p) => Acceptable(k, p) && Mismatch(c, k, SelectionOf(p), p)
    case ExportAs(_) => false
  }

  lemma WhenStepIsSound(c: Primitives, k: Key, command: Command)
    requires k.Sound(c)
    ensures Step(c, k, command).Sound(c) <==> !Breaks(c, k, command)
  {
    match command {
      case Import(s, p) => WhenImportIsSound(c, k, s, p);
      case Set(p) =>
        var flags := ApplyEncoding(k.explicit, k.cofactor, p);
        var flagged := k.(explicit := flags.explicit, cofactor := flags.cofactor);
        WhenImportIsSound(c, flagged, SelectionOf(p), p);
        assert Acceptable(flagged, p) == Acceptable(k, p);
      case ExportAs(s) =>
    }
  }

  predicate NeverBreaks(c: Primitives, k: Key, commands: seq<Command>)
    decreases |commands|
  {
    commands == [] || (!Breaks(c, k, commands[0]) && NeverBreaks(c, Step(c, k, commands[0]), commands[1..]))
  }

  // From a sound key, every state of a run is sound, exactly when no command of the run breaks it.
  lemma {:induction false} RunsStaySound(c: Primitives, k: Key, commands: seq<Command>)
    requires k.Sound(c)
    ensures NeverBreaks(c, k, commands) <==> forall n :: 0 <= n <= |commands| ==> Run(c, k, commands[..n]).Sound(c)
    decreases |commands|
  {
    if commands == [] {
      assert forall n :: 0 <= n <= |commands| ==> commands[..n] == [];
    } else {
      var next := Step(c, k, commands[0]);
      WhenStepIsSound(c, k, commands[0]);
      RunPrefixes(c, k, commands);
      if next.Sound(c) {
        RunsStaySound(c, next, commands[1..]);
      }
    }
  }

  // The states of a run behind its first command are those of the rest of the run.
  lemma RunPrefixes(c: Primitives, k: Key, commands: seq<Command>)
    requires commands != []
    ensures var next := Step(c, k, commands[0]);
      (forall n :: 0 <= n <= |commands| ==> Run(c, k, commands[..n]).Sound(c)) <==>
      k.Sound(c) && next.Sound(c) && forall n :: 0 <= n <= |commands[1..]| ==> Run(c, next, commands[1..][..n]).Sound(c)
  {
    var next, rest := Step(c, k, commands[0]), commands[1..];
    forall n | 0 <= n <= |rest|
      ensures Run(c, k, commands[..n + 1]) == Run(c, next, rest[..n])
    {
      assert commands[..n + 1][1..] == rest[..n];
    }
    assert commands[..0] == [] && Run(c, k, commands[..0]) == k;
    assert rest[..0] == [] && Run(c, next, rest[..0]) == next;
    if forall n :: 0 <= n <= |commands| ==> Run(c, k, commands[..n]).Sound(c) {
      forall n | 0 <= n <= |rest|
        ensures Run(c, next, rest[..n]).Sound(c)
      {
        assert Run(c, k, commands[..n + 1]).Sound(c);
      }
    }
    if k.Sound(c) && next.Sound(c) && forall n :: 0 <= n <= |rest| ==> Run(c, next, rest[..n]).Sound(c) {
      forall n | 0 <= n <= |commands|
        ensures Run(c, k, commands[..n]).Sound(c)
      {
        if n > 0 {
          assert Run(c, k, commands[..n - 1 + 1]) == Run(c, next, rest[..n - 1]);
        }
      }
    }
  }

  // Importing a public key into a new key, or one its private half derives, breaks nothing...
  lemma PublicImportIsSound(c: Primitives, variant: Option<Variant>, s: Selection, p: Params)
    requires p.priv.Absent?
    ensures !Breaks(c, NewKey(variant), Import(s, p))
  {
  }

  // ... but every private key can be joined by a public one it does not derive: a run from a new key
  // that imports the two one after the other.
  lemma UnsoundExample(c: Primitives, v: Variant, priv: seq<byte>) returns (commands: seq<Command>)
    requires |priv| == PrivLen(v)
    ensures var k := Run(c, NewKey(Some(v)), commands);
      k.Valid() && k.priv == Some(priv) && k.pub.Some? && !k.Sound(c)
  {
    var zeros := Zeros(PubLen(v));
    var pub := if c.Derive(v, priv) == Some(zeros) then Complement(zeros) else zeros;
    assert Complement(zeros)[0] == 255 && zeros[0] == 0;
    var first := Import(Selection(true, false, false), Params(Absent, Absent, Absent, Given(priv), Absent, Absent));
    var second := Import(Selection(false, true, false), Params(Absent, Absent, Absent, Absent, Given(pub), Absent));
    var k0 := NewKey(Some(v));
    var k1 := Step(c, k0, first);
    var k2 := Step(c, k1, second);
    assert k1 == k0.(priv := Some(priv));
    assert k2 == k1.(pub := Some(pub));
    commands := [first, second];
    assert commands[1..] == [second] && [second][1..] == [];
    assert Run(c, k1, [second]) == Run(c, k2, []) == k2;
  }
}
