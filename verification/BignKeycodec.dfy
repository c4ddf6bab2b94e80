// The encoder and the decoder of Bign keys: from a key object to a file in DER or PEM and back.
module BignKeycodec {
  import opened Bytes
  import opened Options
  import opened Buffers
  import opened KeyFormats
  import opened KeyLayout
  import opened BignKey
  import DomainParams
  import Pem
  import M = BignModel

  // ---------------------------------------------------------------- decoding into a key object

  method StoreFlags(key: KeyObject, d: DomainParams.Domain)
    modifies key`encodeExplicit, key`encodeCofactor
    ensures key.encodeExplicit == d.explicit && key.encodeCofactor == d.cofactor
  {
    key.encodeExplicit, key.encodeCofactor := d.explicit, d.cofactor;
  }

  predicate Expected(expected: Option<M.Variant>, v: M.Variant) {
    expected.None? || expected.value == v
  }

  // The private half is stored before the public one is derived, and stays when that fails.
  method DecodePkcs8(c: M.Primitives, buf: seq<byte>, expected: Option<M.Variant>, key: KeyObject) returns (ok: bool)
    requires c.Valid() && key.Valid() && !key.hasPriv && !key.hasPub
    modifies key
    ensures key.Valid()
    ensures var p := ParsePkcs8(c, buf);
      var taken := p.Some? && Expected(expected, p.value.domain.variant);
      && (ok <==> taken && c.Derive(p.value.domain.variant, p.value.octets).Some?)
      && (ok ==> key.View() == PrivateKey(c, p.value))
      && (!ok ==> !key.hasPub)
      && (!taken ==> !key.hasPriv)
  {
    hide ParsePkcs8;
    var p := ParsePkcs8(c, buf);
    if p.None? {
      return false;
    }
    var d := p.value.domain;
    StoreFlags(key, d);
    if expected.Some? && expected.value != d.variant {
      return false;
    }
    key.variant := Some(d.variant);
    key.SetPriv(p.value.octets);
    ok := key.DerivePub(c);
  }

  method DecodeSpki(c: M.Primitives, buf: seq<byte>, expected: Option<M.Variant>, key: KeyObject) returns (ok: bool)
    requires c.Valid() && key.Valid() && !key.hasPub
    modifies key
    ensures key.Valid() && key.hasPriv == old(key.hasPriv)
    ensures var p := ParseSpki(c, buf);
      && (ok <==> p.Some? && Expected(expected, p.value.domain.variant))
      && (ok && !key.hasPriv ==> key.View() == PublicKey(p.value))
  {
    hide ParseSpki;
    var p := ParseSpki(c, buf);
    if p.None? {
      return false;
    }
    var d := p.value.domain;
    StoreFlags(key, d);
    if expected.Some? && expected.value != d.variant {
      return false;
    }
    key.variant := Some(d.variant);
    key.SetPub(p.value.octets);
    return true;
  }

  function PrivateKey(c: M.Primitives, p: Private): M.Key {
    M.Key(Some(p.domain.variant), Some(p.octets), c.Derive(p.domain.variant, p.octets), p.domain.explicit,
        p.domain.cofactor)
  }

  function PublicKey(p: Public): M.Key {
    M.Key(Some(p.domain.variant), None, Some(p.octets), p.domain.explicit, p.domain.cofactor)
  }

  // ---------------------------------------------------------------- files

  // What decoding makes of DER octets as a private, or as a public key.
  function DecodedPrivate(c: M.Primitives, expected: Option<M.Variant>, der: seq<byte>): Option<M.Key> {
    var p := ParsePkcs8(c, der);
    if p.Some? && Expected(expected, p.value.domain.variant) && PrivateKey(c, p.value).pub.Some? then
      Some(PrivateKey(c, p.value))
    else None
  }

  function DecodedPublic(c: M.Primitives, expected: Option<M.Variant>, der: seq<byte>): Option<M.Key> {
    var p := ParseSpki(c, der);
    if p.Some? && Expected(expected, p.value.domain.variant) then Some(PublicKey(p.value)) else None
  }

  // A reader of PEM text gives the label and the octets of the first text it finds.
  datatype Labelled = Labelled(name: seq<byte>, data: seq<byte>)
  type PemReader = seq<byte> -> Option<Labelled>

  // It reads at least what is laid out as a key is written.
  ghost predicate ReadsKeys(reader: PemReader) {
    forall data, kind :: reader(Pem.Text(data, kind)) == Some(Labelled(Pem.Name(kind), data))
  }

  // A reader of nothing but that layout is one.
  function PlainReader(text: seq<byte>): Option<Labelled> {
    var d := Pem.Read(text);
    if d.None? then None else Some(Labelled(Pem.Name(d.value.kind), d.value.data))
  }

  lemma PlainReaderReadsKeys()
    ensures ReadsKeys(PlainReader)
  {
    forall data, kind
      ensures PlainReader(Pem.Text(data, kind)) == Some(Labelled(Pem.Name(kind), data))
    {
      Pem.RoundTrip(data, kind);
    }
  }

  // The key a file stands for: by label in PEM; in DER, private if it can be, public otherwise.
  ghost function DecodedFile(c: M.Primitives, reader: PemReader, expected: Option<M.Variant>, file: seq<byte>)
    : Option<M.Key>
  {
    if Pem.HasMarker(file) then
      var text := reader(file);
      if text.None? then None
      else if text.value.name == Pem.Name(Pem.PrivateKey) then DecodedPrivate(c, expected, text.value.data)
      else if text.value.name == Pem.Name(Pem.PublicKey) then DecodedPublic(c, expected, text.value.data)
      else None
    else
      var private := DecodedPrivate(c, expected, file);
      if private.Some? then private else DecodedPublic(c, expected, file)
  }

  method DecodeBuffer(c: M.Primitives, reader: PemReader, expected: Option<M.Variant>, buf: seq<byte>)
    returns (key: KeyObject?)
    requires c.Valid()
    ensures var r := DecodedFile(c, reader, expected, buf);
      && (key != null <==> r.Some?)
      && (key != null ==> fresh(key) && key.Valid() && key.View() == r.value)
  {
    hide ParseSpki, ParsePkcs8;
    var result := new KeyObject(None);
    var decoded := false;
    var isPem := Pem.IsPemData(buf);
    if isPem {
      var text := reader(buf);
      if text.None? || |text.value.data| == 0 {
        NoKeyInNothing(c);
        return null;
      }
      if text.value.name == Pem.Name(Pem.PrivateKey) {
        decoded := DecodePkcs8(c, text.value.data, expected, result);
      } else if text.value.name == Pem.Name(Pem.PublicKey) {
        decoded := DecodeSpki(c, text.value.data, expected, result);
      }
    } else {
      decoded := DecodePkcs8(c, buf, expected, result);
      if !decoded {
        NeverBoth(c, buf);
        decoded := DecodeSpki(c, buf, expected, result);
      }
    }
    return if decoded then result else null;
  }

  // Reads the source to its end and decodes what it held.
  method Decode(c: M.Primitives, reader: PemReader, expected: Option<M.Variant>, input: Source, allocates: nat -> bool)
    returns (key: KeyObject?)
    requires c.Valid()
    modifies input
    ensures var held := Gathered(old(input.pending));
      && (key != null ==>
        && fresh(key) && key.Valid()
        && held.Some? && DecodedFile(c, reader, expected, held.value) == Some(key.View()))
      && (key == null ==>
        || held.None? || Stuck(old(input.pending), 0, allocates)
        || DecodedFile(c, reader, expected, held.value).None?)
  {
    var buf := ReadAll(input, allocates);
    if buf.None? || |buf.value| == 0 {
      if buf.Some? {
        EmptyFile(c, reader, expected);
      }
      return null;
    }
    key := DecodeBuffer(c, reader, expected, buf.value);
  }

  lemma NoKeyInNothing(c: M.Primitives)
    ensures ParsePkcs8(c, []).None? && ParseSpki(c, []).None?
  {
  }

  lemma EmptyFile(c: M.Primitives, reader: PemReader, expected: Option<M.Variant>)
    ensures DecodedFile(c, reader, expected, []).None?
  {
  }

  // ---------------------------------------------------------------- encoding

  // The file a key is written as: private if that half is selected, public if only the other is.
  function EncodedFile(c: M.Primitives, variant: Option<M.Variant>, pem: bool, k: M.Key, s: M.Selection)
    : Option<seq<byte>>
    requires c.Valid() && k.Valid()
  {
    if (!s.priv && !s.pub) || k.variant.None? || !Expected(variant, k.variant.value) then None
    else
      var der := if s.priv then Pkcs8(c, k) else Spki(c, k);
      if der.None? then None
      else if pem then Some(Pem.Text(der.value, if s.priv then Pem.PrivateKey else Pem.PublicKey))
      else der
  }

  // A key is written exactly when something is selected, the variant is the one asked for, the selected half
  // is there or can be derived, and a curve to be spelled out is known; the file is the octets of that half,
  // or the PEM text of them under its label.
  lemma EncodedFileLayout(c: M.Primitives, variant: Option<M.Variant>, pem: bool, k: M.Key, s: M.Selection)
    requires c.Valid() && k.Valid()
    ensures EncodedFile(c, variant, pem, k, s).Some? <==>
      && (s.priv || s.pub) && k.variant.Some? && (variant.None? || variant == k.variant)
      && (if s.priv then k.priv.Some? else PublicHalf(c, k).Some?)
      && (k.explicit ==> c.curve(k.variant.value).Some?)
    ensures EncodedFile(c, variant, pem, k, s).Some? ==>
      var der := if s.priv then Tlv(0x30, [2, 1, 0] + AlgorithmElement(c, k) + Tlv(4, k.priv.value))
                 else Tlv(0x30, AlgorithmElement(c, k) + Tlv(3, [0] + PublicHalf(c, k).value));
      EncodedFile(c, variant, pem, k, s)
      == Some(if pem then Pem.Text(der, if s.priv then Pem.PrivateKey else Pem.PublicKey) else der)
  {
    hide Pkcs8, Spki, Pem.Text, AlgorithmElement, Tlv, PublicHalf;
    if EncodedFile(c, variant, pem, k, s).Some? {
      if s.priv {
        PrivateLayout(c, k);
      } else {
        PublicLayout(c, k);
      }
    }
  }

  method Encode(c: M.Primitives, variant: Option<M.Variant>, outputPem: bool, out: Sink, key: KeyObject, s: M.Selection)
    returns (ok: bool)
    requires c.Valid() && key.Valid()
    modifies out
    ensures var file := EncodedFile(c, variant, outputPem, key.View(), s);
      && (ok ==> file.Some? && out.delivered == old(out.delivered) + file.value)
      && (file.None? ==> out.delivered == old(out.delivered))
      && (file.Some? && out.Accepting() ==> ok)
  {
    hide Pkcs8, Spki, Pem.Text;
    if !s.priv && !s.pub {
      return false;
    }
    if key.variant.None? || (variant.Some? && variant != key.variant) {
      return false;
    }
    var der, kind;
    if s.priv {
      if !key.hasPriv {
        return false;
      }
      der, kind := Pkcs8(c, key.View()), Pem.PrivateKey;
    } else {
      der, kind := Spki(c, key.View()), Pem.PublicKey;
    }
    if der.None? {
      return false;
    }
    if outputPem {
      ok := Pem.WritePemPayload(out, der.value, kind);
    } else {
      ok := WriteAll(out, der.value);
    }
  }

  // ---------------------------------------------------------------- round trip

  // What comes back of a key: its halves, the explicit flag, and the cofactor flag where the explicit
  // one is up.
  function Survivor(c: M.Primitives, k: M.Key, s: M.Selection): Option<M.Key>
    requires c.Valid() && k.Valid()
  {
    if s.priv then
      if k.priv.None? || c.Derive(k.variant.value, k.priv.value).None? then None
      else Some(k.(pub := c.Derive(k.variant.value, k.priv.value), cofactor := k.explicit && k.cofactor))
    else Some(k.(priv := None, pub := PublicHalf(c, k), cofactor := k.explicit && k.cofactor))
  }

  lemma DerReadsBack(c: M.Primitives, expected: Option<M.Variant>, k: M.Key, s: M.Selection, der: seq<byte>)
    requires c.Valid() && k.Valid() && EncodedFile(c, None, false, k, s) == Some(der)
    requires Expected(expected, k.variant.value)
    ensures s.priv ==> DecodedPrivate(c, expected, der) == Survivor(c, k, s) && DecodedPublic(c, expected, der).None?
    ensures !s.priv ==> DecodedPublic(c, expected, der) == Survivor(c, k, s) && DecodedPrivate(c, expected, der).None?
  {
    hide ParseSpki, ParsePkcs8, Pkcs8, Spki;
    assert der + [] == der;
    NeverBoth(c, der);
    if s.priv {
      Pkcs8RoundTrip(c, k, []);
    } else {
      SpkiRoundTrip(c, k, []);
    }
  }

  // Decoding the file a key was encoded to gives the key back, in either format; of a private key file
  // whose public key cannot be derived nothing comes back. A DER file must not hold the marker that
  // PEM text begins with.
  lemma FileRoundTrip(c: M.Primitives, reader: PemReader, variant: Option<M.Variant>, expected: Option<M.Variant>,
                      pem: bool, k: M.Key, s: M.Selection)
    requires c.Valid() && k.Valid() && ReadsKeys(reader)
    requires EncodedFile(c, variant, pem, k, s).Some? && Expected(expected, k.variant.value)
    requires pem || !Pem.HasMarker(EncodedFile(c, variant, pem, k, s).value)
    ensures DecodedFile(c, reader, expected, EncodedFile(c, variant, pem, k, s).value) == Survivor(c, k, s)
  {
    hide DecodedPrivate, DecodedPublic, Survivor, Pkcs8, Spki, Pem.Text;
    var der := (if s.priv then Pkcs8(c, k) else Spki(c, k)).value;
    DerReadsBack(c, expected, k, s, der);
    if pem {
      Pem.WrittenTextIsPem(der, if s.priv then Pem.PrivateKey else Pem.PublicKey);
      Pem.NamesAreDistinct();
    }
  }

  // The condition on DER files is the exact one, for a reader that finds no text in them.
  lemma MarkerInDer(c: M.Primitives, reader: PemReader, k: M.Key, s: M.Selection, der: seq<byte>)
    requires c.Valid() && k.Valid() && EncodedFile(c, None, false, k, s) == Some(der)
    requires reader(der).None? && Survivor(c, k, s).Some?
    ensures DecodedFile(c, reader, None, der) == Survivor(c, k, s) <==> !Pem.HasMarker(der)
  {
    hide DecodedPrivate, DecodedPublic, Survivor, Pkcs8, Spki;
    DerReadsBack(c, None, k, s, der);
  }

  const PUBLIC_ONLY := M.Selection(false, true, false)

  // A public key in whose octets the marker occurs somewhere is written as a DER file that does not
  // read back: it is taken for PEM text, and the reader finds none in it.
  lemma MarkerInPublicKey(c: M.Primitives, expected: Option<M.Variant>, k: M.Key, offset: nat)
    requires c.Valid() && k.Valid() && Spki(c, k).Some?
    requires Pem.MarkerAt(PublicHalf(c, k).value, offset)
    ensures var file := EncodedFile(c, None, false, k, PUBLIC_ONLY);
      && file.Some? && Pem.HasMarker(file.value)
      && DecodedFile(c, PlainReader, expected, file.value).None?
      && Survivor(c, k, PUBLIC_ONLY).Some?
  {
    var der, pub := Spki(c, k).value, PublicHalf(c, k).value;
    SpkiLayout(c, k);
    MarkerInTail(der, pub, offset);
    NoTextInDer(der);
  }

  lemma MarkerInTail(s: seq<byte>, end: seq<byte>, offset: nat)
    requires EndsWith(s, end) && Pem.MarkerAt(end, offset)
    ensures Pem.HasMarker(s)
  {
    var at := |s| - |end| + offset;
    assert s[at..at + |Pem.MARKER|] == end[offset..offset + |Pem.MARKER|];
    assert Pem.MarkerAt(s, at);
  }

  lemma NoTextInDer(der: seq<byte>)
    requires der != [] && der[0] == 48
    ensures PlainReader(der).None?
  {
    assert Pem.Header(Pem.PrivateKey)[0] == 45 && Pem.Header(Pem.PublicKey)[0] == 45;
  }

  // There is such a key of every variant.
  lemma MarkerExample(c: M.Primitives, v: M.Variant) returns (k: M.Key)
    requires c.Valid()
    ensures k.Valid() && k.variant == Some(v)
    ensures var file := EncodedFile(c, None, false, k, PUBLIC_ONLY);
      && file.Some? && Pem.HasMarker(file.value)
      && DecodedFile(c, PlainReader, None, file.value).None?
      && Survivor(c, k, PUBLIC_ONLY) == Some(k)
  {
    var pub := Pem.MARKER + Zeros(M.PubLen(v) - 10);
    k := M.Key(Some(v), None, Some(pub), false, false);
    assert pub[0..|Pem.MARKER|] == Pem.MARKER;
    assert Pem.MarkerAt(pub, 0);
    MarkerInPublicKey(c, None, k, 0);
  }

  // A coherent key written whole comes back as it was, but for a cofactor flag that had no effect.
  lemma CoherentKeySurvives(c: M.Primitives, k: M.Key)
    requires c.Valid() && k.Valid() && k.Coherent(c)
    ensures Survivor(c, k, M.EVERYTHING) == Some(k.(cofactor := k.explicit && k.cofactor))
  {
  }
}
