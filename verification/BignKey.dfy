// The key object: two octet buffers with their flags, and the key management operations on it.
module BignKey {
  import opened Bytes
  import opened Options
  import M = BignModel

  const PUB_SIZE: nat := 128
  const PRIV_SIZE: nat := 64

  function Overwrite(buffer: seq<byte>, data: seq<byte>): (r: seq<byte>)
    requires |data| <= |buffer|
    ensures |r| == |buffer| && r[..|data|] == data && r[|data|..] == buffer[|data|..]
  {
    data + buffer[|data|..]
  }

  class KeyObject {
    var variant: Option<M.Variant>
    var hasPub: bool
    var hasPriv: bool
    var encodeExplicit: bool
    var encodeCofactor: bool
    var pub: seq<byte>
    var priv: seq<byte>

    predicate Valid()
      reads this
    {
      && |pub| == PUB_SIZE && |priv| == PRIV_SIZE
      && (hasPub || hasPriv ==> variant.Some?)
    }

    // What the object stands for: the octets in use of each buffer whose flag is up.
    function View(): (k: M.Key)
      requires Valid()
      reads this
      ensures k.Valid()
    {
      M.Key(variant,
            if hasPriv then Some(priv[..M.PrivLen(variant.value)]) else None,
            if hasPub then Some(pub[..M.PubLen(variant.value)]) else None,
            encodeExplicit, encodeCofactor)
    }

    constructor (variant: Option<M.Variant>)
      ensures Valid() && View() == M.NewKey(variant) == M.Key(variant, None, None, false, false)
    {
      this.variant := variant;
      hasPub, hasPriv, encodeExplicit, encodeCofactor := false, false, false, false;
      pub, priv := Zeros(PUB_SIZE), Zeros(PRIV_SIZE);
    }

    // Structure assignment.
    method Assign(from: KeyObject)
      requires from.Valid()
      modifies this
      ensures Valid() && View() == from.View()
      ensures variant == from.variant && hasPub == from.hasPub && hasPriv == from.hasPriv
      ensures encodeExplicit == from.encodeExplicit && encodeCofactor == from.encodeCofactor
      ensures pub == from.pub && priv == from.priv
    {
      variant, hasPub, hasPriv := from.variant, from.hasPub, from.hasPriv;
      encodeExplicit, encodeCofactor := from.encodeExplicit, from.encodeCofactor;
      pub, priv := from.pub, from.priv;
    }

    // ---------------------------------------------------------------- halves

    method SetPriv(data: seq<byte>)
      requires Valid() && variant.Some? && |data| == M.PrivLen(variant.value)
      modifies `priv, `hasPriv
      ensures Valid() && View() == old(View()).(priv := Some(data))
    {
      priv := Overwrite(priv, data);
      hasPriv := true;
    }

    method SetPub(data: seq<byte>)
      requires Valid() && variant.Some? && |data| == M.PubLen(variant.value)
      modifies `pub, `hasPub
      ensures Valid() && View() == old(View()).(pub := Some(data))
    {
      pub := Overwrite(pub, data);
      hasPub := true;
    }

    // Stores the derived public octets; the flag is the caller's business.
    method DerivePub(c: M.Primitives) returns (ok: bool)
      requires Valid() && c.Valid() && variant.Some? && hasPriv
      modifies `pub, `hasPub
      ensures Valid()
      ensures var derived := old(c.Derive(variant.value, priv[..M.PrivLen(variant.value)]));
        && (ok <==> derived.Some?)
        && View() == if ok then old(View()).(pub := derived) else old(View())
    {
      var derived := c.Derive(variant.value, priv[..M.PrivLen(variant.value)]);
      if derived.None? {
        return false;
      }
      SetPub(derived.value);
      return true;
    }

    method EnsurePublic(c: M.Primitives) returns (ok: bool)
      requires Valid() && c.Valid()
      modifies `pub, `hasPub
      ensures Valid()
      ensures var r := M.EnsurePublic(c, old(View())); (ok <==> r.Some?) && View() == r.GetOr(old(View()))
    {
      if variant.None? {
        return false;
      }
      if hasPub {
        return true;
      }
      if !hasPriv {
        return false;
      }
      ok := DerivePub(c);
    }

    method ValidatePair(c: M.Primitives) returns (ok: bool)
      requires Valid() && c.Valid()
      ensures ok <==> View().Coherent(c)
    {
      if variant.None? || !hasPriv || !hasPub {
        return false;
      }
      var derived := c.Derive(variant.value, priv[..M.PrivLen(variant.value)]);
      var publicLength := M.PubLen(variant.value);
      if derived.None? {
        return false;
      }
      assert derived.value[..publicLength] == derived.value;
      return derived.value[..publicLength] == pub[..publicLength];
    }

    // ---------------------------------------------------------------- key management

    method ApplyEncodingParams(p: M.Params) returns (ok: bool)
      requires Valid()
      modifies `encodeExplicit, `encodeCofactor
      ensures Valid()
      ensures var flags := M.ApplyEncoding(old(View()).explicit, old(View()).cofactor, p);
        ok == flags.ok && View() == old(View()).(explicit := flags.explicit, cofactor := flags.cofactor)
    {
      ok := TakeEncoding(p.encoding);
      if ok {
        ok := TakeDetail(p.detail);
      }
    }

    method TakeEncoding(e: M.Param<M.Encoding>) returns (ok: bool)
      modifies `encodeExplicit
      ensures ok <==> !e.Unreadable? && e != M.Given(M.OtherEncoding)
      ensures encodeExplicit == if ok && e.Given? then e.value == M.Explicit else old(encodeExplicit)
    {
      match e {
        case Absent =>
        case Unreadable => return false;
        case Given(Explicit) => encodeExplicit := true;
        case Given(NamedCurve) => encodeExplicit := false;
        case Given(OtherEncoding) => return false;
      }
      return true;
    }

    method TakeDetail(d: M.Param<M.Detail>) returns (ok: bool)
      modifies `encodeExplicit, `encodeCofactor
      ensures ok <==> !d.Unreadable? && d != M.Given(M.OtherDetail)
      ensures encodeExplicit == (old(encodeExplicit) || d == M.Given(M.Specified))
      ensures encodeCofactor == (old(encodeCofactor) || d == M.Given(M.Cofactor))
    {
      match d {
        case Absent =>
        case Unreadable => return false;
        case Given(Specified) => encodeExplicit := true;
        case Given(Cofactor) => encodeCofactor := true;
        case Given(OtherDetail) => return false;
      }
      return true;
    }

    method SetVariantFromParams(p: M.Params) returns (ok: bool)
      requires Valid()
      modifies `variant
      ensures Valid()
      ensures var r := M.ResolveVariant(old(variant), p.group);
        (ok <==> r.Some?) && View() == if ok then old(View()).(variant := r) else old(View())
    {
      if p.group.Absent? {
        return variant.Some?;
      }
      if p.group.Unreadable? {
        return false;
      }
      var named := M.VariantFromName(p.group.value);
      if named.None? {
        return false;
      }
      if variant.Some? && variant != named {
        return false;
      }
      variant := named;
      return true;
    }

    method Has(s: M.Selection) returns (ok: bool)
      requires Valid()
      ensures ok <==> M.Has(View(), s)
    {
      if variant.None? {
        return false;
      }
      ok := true;
      if s.pub {
        ok := ok && hasPub;
      }
      if s.priv {
        ok := ok && hasPriv;
      }
    }

    method Match(other: KeyObject, s: M.Selection) returns (ok: bool)
      requires Valid() && other.Valid()
      ensures ok <==> M.Match(View(), other.View(), s)
    {
      if variant.None? || other.variant.None? || variant != other.variant {
        return false;
      }
      var privLen, pubLen := M.PrivLen(variant.value), M.PubLen(variant.value);
      if s.priv {
        if !hasPriv || !other.hasPriv || priv[..privLen] != other.priv[..privLen] {
          return false;
        }
      }
      if s.pub {
        if !hasPub || !other.hasPub || pub[..pubLen] != other.pub[..pubLen] {
          return false;
        }
      }
      return true;
    }

    method Validate(c: M.Primitives, s: M.Selection) returns (ok: bool)
      requires Valid() && c.Valid()
      ensures ok <==> M.Validate(c, View(), s)
    {
      if variant.None? {
        return false;
      }
      ok := Has(s);
      if !ok {
        return;
      }
      if s.priv && s.pub && hasPriv && hasPub {
        ok := ValidatePair(c);
      }
    }

    // Stores the halves the parameters bring; a private key without a public one clears the latter.
    method TakeHalves(p: M.Params) returns (ok: bool, haveIn: bool)
      requires Valid() && variant.Some?
      modifies `priv, `hasPriv, `pub, `hasPub
      ensures Valid()
      ensures var v := variant.value;
        ok <==> M.Sized(p.priv, M.PrivLen(v)) && M.Sized(p.PubIn(), M.PubLen(v))
      ensures ok ==> haveIn == (p.priv.Given? || p.PubIn().Given?)
      ensures ok ==> View() == old(View()).(
        priv := if p.priv.Given? then Some(p.priv.value) else old(View()).priv,
        pub := if p.PubIn().Given? then Some(p.PubIn().value) else if p.priv.Given? then None else old(View()).pub)
    {
      ok, haveIn := false, false;
      var privLen, pubLen := M.PrivLen(variant.value), M.PubLen(variant.value);
      if !p.priv.Absent? {
        if p.priv.Unreadable? || |p.priv.value| != privLen {
          return;
        }
        SetPriv(p.priv.value);
        haveIn := true;
      }
      var pubIn := p.pub;
      if pubIn.Absent? {
        pubIn := p.encodedPub;
      }
      if !pubIn.Absent? {
        if pubIn.Unreadable? || |pubIn.value| != pubLen {
          return;
        }
        SetPub(pubIn.value);
        haveIn := true;
      } else if haveIn {
        pub := Zeros(PUB_SIZE);
        hasPub := false;
      }
      ok := true;
    }

    method Take(p: M.Params) returns (ok: bool, haveIn: bool)
      requires Valid()
      modifies this
      ensures Valid()
      ensures var r := M.Taken(old(View()), p);
        (ok <==> r.Some?) && (ok ==> View() == r.value && haveIn == (p.priv.Given? || p.PubIn().Given?))
    {
      hide M.ApplyEncoding, M.ResolveVariant;
      haveIn := false;
      ok := ApplyEncodingParams(p);
      if !ok {
        return;
      }
      ok := SetVariantFromParams(p);
      if !ok {
        return;
      }
      ok, haveIn := TakeHalves(p);
    }

    method Complete(c: M.Primitives, s: M.Selection, haveIn: bool) returns (ok: bool)
      requires Valid() && c.Valid() && variant.Some?
      modifies `pub, `hasPub
      ensures Valid()
      ensures var r := M.Completed(c, old(View()), s, haveIn); (ok <==> r.Some?) && (ok ==> View() == r.value)
    {
      if s.priv && !hasPriv {
        return false;
      }
      if s.pub && !hasPub {
        if !hasPriv {
          return false;
        }
        ok := DerivePub(c);
        if !ok {
          return;
        }
      }
      if !haveIn && !s.domain {
        return false;
      }
      if s.priv && s.pub && hasPriv && hasPub {
        ok := Validate(c, M.KEYPAIR);
        if !ok {
          return;
        }
      }
      return true;
    }

    // Builds the new key beside this one and assigns it only when everything went through.
    method Import(c: M.Primitives, s: M.Selection, p: M.Params) returns (ok: bool)
      requires Valid() && c.Valid()
      modifies this
      ensures Valid()
      ensures var r := M.Imported(c, old(View()), s, p); (ok <==> r.Some?) && (ok ==> View() == r.value)
      ensures !ok ==> unchanged(this)
    {
      hide M.Taken, M.Completed;
      var candidate := new KeyObject(variant);
      candidate.Assign(this);
      var haveIn;
      ok, haveIn := candidate.Take(p);
      if !ok {
        return;
      }
      ok := candidate.Complete(c, s, haveIn);
      if !ok {
        return;
      }
      Assign(candidate);
      return true;
    }

    method Export(c: M.Primitives, s: M.Selection) returns (r: Option<M.Params>)
      requires Valid() && c.Valid()
      modifies this
      ensures Valid()
      ensures var e := M.Exported(c, old(View()), s);
        && (r.Some? <==> e.Some?)
        && (r.Some? ==> r.value == e.value.params && View() == e.value.key)
      ensures r.None? ==> View() == old(View()) || M.EnsurePublic(c, old(View())) == Some(View())
    {
      if variant.None? {
        return None;
      }
      var p := M.Params(M.Absent, M.Absent, M.Absent, M.Absent, M.Absent, M.Absent);
      if s.domain {
        p := p.(group := M.Given(M.CurveName(variant.value)),
                encoding := M.Given(if encodeExplicit then M.Explicit else M.NamedCurve));
      }
      if s.pub {
        var ok := EnsurePublic(c);
        if !ok {
          return None;
        }
        var octets := pub[..M.PubLen(variant.value)];
        p := p.(pub := M.Given(octets), encodedPub := M.Given(octets));
      }
      if s.priv {
        if !hasPriv {
          return None;
        }
        p := p.(priv := M.Given(priv[..M.PrivLen(variant.value)]));
      }
      return Some(p);
    }

    method SetParams(c: M.Primitives, p: M.Params) returns (ok: bool)
      requires Valid() && c.Valid()
      modifies this
      ensures Valid()
      ensures M.SetParams(c, old(View()), p) == M.Outcome(ok, View())
    {
      hide M.ApplyEncoding, M.Imported, M.AsksForNothingNew, KeyObject.View;
      ok := ApplyEncodingParams(p);
      if !ok {
        return;
      }
      var s := M.SelectionOf(p);
      if !s.domain && !s.priv && !s.pub {
        return true;
      }
      ok := Import(c, s, p);
    }

    method CopyHalves(from: KeyObject, s: M.Selection)
      requires Valid() && from.Valid() && variant == from.variant && variant.Some? && from != this
      modifies `priv, `hasPriv, `pub, `hasPub
      ensures Valid()
      ensures View() == old(View()).(
        priv := if s.priv && from.hasPriv then from.View().priv else old(View()).priv,
        pub := if s.pub && from.hasPub then from.View().pub else old(View()).pub)
    {
      if s.priv && from.hasPriv {
        SetPriv(from.priv[..M.PrivLen(variant.value)]);
      }
      if s.pub && from.hasPub {
        SetPub(from.pub[..M.PubLen(variant.value)]);
      }
    }

    method Dup(c: M.Primitives, s: M.Selection) returns (dst: KeyObject?)
      requires Valid() && c.Valid()
      ensures var r := M.Duplicated(c, View(), s);
        && (dst == null <==> r.None?)
        && (dst != null ==> fresh(dst) && dst.Valid() && dst.View() == r.value)
    {
      hide M.EnsurePublic;
      if variant.None? {
        return null;
      }
      var copy := new KeyObject(variant);
      copy.encodeExplicit, copy.encodeCofactor := encodeExplicit, encodeCofactor;
      copy.CopyHalves(this, s);
      if s.pub && !copy.hasPub && copy.hasPriv {
        var ok := copy.EnsurePublic(c);
        if !ok {
          return null;
        }
      }
      return copy;
    }
  }
}
