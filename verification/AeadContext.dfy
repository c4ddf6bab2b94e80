// The context of an authenticated-encryption cipher, updated in place, refining AeadModel. One
// class stands for the two contexts of the provider, which differ in their backend and in the
// lengths they accept.
module AeadContext {
  import opened Bytes
  import opened Options
  import opened AeadModel

  class Aead<S(!new)> {
    const a: Algorithm<S>
    var backend: S
    var key: seq<byte>
    var keySet: bool
    var iv: seq<byte>
    var ivSet: bool
    var keyLen: nat
    var enc: bool
    var dataStarted: bool
    const tag: array<byte>
    var tagSet: bool
    ghost var accepted: seq<Op>
    ghost var inBackend: seq<Op>

    ghost predicate Valid() {
      a.Valid() && tag.Length == a.tagSize
    }

    ghost function Abs(): Ctx<S>
      reads this, tag
    {
      Ctx(backend, if keySet then Some(key) else None, if ivSet then Some(iv) else None, keyLen,
          enc, dataStarted, tag[..], tagSet, accepted, inBackend)
    }

    constructor (a: Algorithm<S>)
      requires a.Valid()
      ensures Valid() && fresh(tag) && this.a == a && Abs() == NewCtx(a)
      ensures key == [] && iv == [] && !keySet && !ivSet && !tagSet
    {
      this.a := a;
      backend := a.blank;
      key, keySet, iv, ivSet, keyLen := [], false, [], false, a.minKey;
      enc, dataStarted, tagSet := false, false, false;
      tag := new byte[a.tagSize](_ => 0);
      accepted, inBackend := [], [];
      new;
      assert tag[..] == Zeros(a.tagSize);
    }

    // A duplicate stands at the same point and shares no memory.
    constructor Duplicate(source: Aead<S>)
      requires source.Valid()
      ensures Valid() && fresh(tag) && a == source.a && Abs() == source.Abs()
    {
      a, backend := source.a, source.backend;
      key, keySet, iv, ivSet, keyLen := source.key, source.keySet, source.iv, source.ivSet, source.keyLen;
      enc, dataStarted, tagSet := source.enc, source.dataStarted, source.tagSet;
      accepted, inBackend := source.accepted, source.inBackend;
      tag := new byte[source.a.tagSize](i requires source.Valid() && 0 <= i < source.a.tagSize
          reads source.tag => source.tag[i]);
      new;
      assert tag[..] == source.tag[..];
    }

    method Restart()
      modifies `backend, `inBackend
      ensures Abs() == AeadModel.Restart(a, old(Abs()))
    {
      if keySet && ivSet {
        backend := a.start(key, iv);
        inBackend := [];
      }
    }

    method Reset()
      requires Valid()
      modifies `backend, `dataStarted, `tagSet, `accepted, `inBackend, tag
      ensures Abs() == AeadModel.Reset(a, old(Abs()))
    {
      dataStarted, tagSet := false, false;
      forall i | 0 <= i < tag.Length {
        tag[i] := 0;
      }
      SameOctets(tag[..], Zeros(a.tagSize));
      accepted, inBackend := [], [];
      hide AeadModel.Restart, Zeros;
      Restart();
    }

    method Prepare()
      requires Valid()
      modifies `backend, `dataStarted, `tagSet, `accepted, `inBackend, tag
      ensures Abs() == AeadModel.Prepare(a, old(Abs()))
    {
      if keySet && (a.resetsOnKeyAlone || ivSet) {
        Reset();
      }
    }

    method SetTag(value: seq<byte>)
      requires Valid() && |value| == a.tagSize
      modifies `tagSet, tag
      ensures Abs() == old(Abs()).(tag := value, tagSet := true)
    {
      forall i | 0 <= i < tag.Length {
        tag[i] := value[i];
      }
      tagSet := true;
      assert tag[..] == value;
    }

    method SetCtxParams(p: Params) returns (ok: bool)
      requires Valid()
      modifies `keyLen, `tagSet, tag
      ensures (Abs(), ok) == SetParams(a, old(Abs()), p)
    {
      if p.keyLen.Some? {
        if p.keyLen.value < a.minKey || p.keyLen.value > a.maxKey {
          return false;
        }
        if keySet && p.keyLen.value != |key| {
          return false;
        }
        keyLen := p.keyLen.value;
      }
      if p.tag.Some? {
        if |p.tag.value| != a.tagSize {
          return false;
        }
        SetTag(p.tag.value);
      }
      return true;
    }

    method TakeKey(newKey: Option<seq<byte>>) returns (ok: bool)
      modifies `key, `keySet, `keyLen, `backend, `inBackend
      ensures (Abs(), ok) == SetKey(a, old(Abs()), newKey)
    {
      if newKey.Some? {
        if |newKey.value| < a.minKey || |newKey.value| > a.maxKey {
          return false;
        }
        key, keySet, keyLen := newKey.value, true, |newKey.value|;
        Restart();
      }
      return true;
    }

    method TakeIv(newIv: Option<seq<byte>>) returns (ok: bool)
      modifies `iv, `ivSet, `backend, `inBackend
      ensures (Abs(), ok) == SetIv(a, old(Abs()), newIv)
    {
      if newIv.Some? {
        if |newIv.value| < a.minIv || |newIv.value| > a.maxIv {
          return false;
        }
        iv, ivSet := newIv.value, true;
        Restart();
      }
      return true;
    }

    method SetDirection(encrypting: bool)
      modifies `enc
      ensures Abs() == old(Abs()).(enc := encrypting)
    {
      enc := encrypting;
    }

    method Init(newKey: Option<seq<byte>>, newIv: Option<seq<byte>>, encrypting: bool, p: Params) returns (ok: bool)
      requires Valid()
      modifies this, tag
      ensures (Abs(), ok) == AeadModel.Init(a, old(Abs()), newKey, newIv, encrypting, p)
    {
      hide AeadModel.SetKey, AeadModel.SetIv, AeadModel.Prepare, AeadModel.SetParams, Aead.Abs;
      SetDirection(encrypting);
      ok := TakeKey(newKey);
      if !ok {
        return;
      }
      ok := TakeIv(newIv);
      if !ok {
        return;
      }
      Prepare();
      ok := SetCtxParams(p);
    }

    // Data in the direction of the context.
    method Crypt(out: array<byte>, input: seq<byte>)
      requires Valid() && |input| <= out.Length
      modifies `backend, `dataStarted, `accepted, `inBackend, out
      ensures var r := if enc then a.encrypt(old(backend), input) else a.decrypt(old(backend), input);
        && backend == r.0 && out[..|input|] == r.1 && out[|input|..] == old(out[|input|..])
      ensures dataStarted && accepted == old(accepted) + [DataOp(input, enc)] && inBackend
          == old(inBackend) + [DataOp(input, enc)]
    {
      dataStarted := true;
      var r: (S, seq<byte>);
      if enc {
        r := a.encrypt(backend, input);
      } else {
        r := a.decrypt(backend, input);
      }
      accepted, inBackend := accepted + [DataOp(input, enc)], inBackend + [DataOp(input, enc)];
      backend := r.0;
      forall i | 0 <= i < |input| {
        out[i] := r.1[i];
      }
      SameOctets(out[..|input|], r.1);
    }

    // Without an output buffer the input is associated data.
    method Update(out: array?<byte>, outsize: nat, input: seq<byte>) returns (ok: bool, outl: nat)
      requires Valid() && out != tag && (out != null ==> outsize <= out.Length)
      modifies `backend, `dataStarted, `accepted, `inBackend, out
      ensures out == null ==> (Abs(), ok) == Associate(a, old(Abs()), input) && outl == 0
      ensures out != null ==>
        && outl <= out.Length
        && Processed(Abs(), ok, out[..outl]) == Process(a, old(Abs()), input, outsize)
        && out[outl..] == old(out[outl..])
    {
      outl := 0;
      if !keySet || !ivSet {
        return false, 0;
      }
      if |input| == 0 {
        return true, 0;
      }
      if out == null {
        if dataStarted {
          return false, 0;
        }
        backend := a.absorb(backend, input);
        accepted, inBackend := accepted + [AdOp(input)], inBackend + [AdOp(input)];
      } else {
        if outsize < |input| {
          return false, 0;
        }
        Crypt(out, input);
        outl := |input|;
      }
      return true, outl;
    }

    method Final() returns (ok: bool)
      requires Valid()
      modifies `backend, `accepted, `inBackend, `tagSet, tag
      ensures (Abs(), ok) == AeadModel.Final(a, old(Abs()))
    {
      if enc {
        var (s, computed) := a.squeeze(backend);
        backend := s;
        accepted, inBackend := accepted + [TagOp], inBackend + [TagOp];
        SetTag(computed);
        return true;
      }
      if !tagSet {
        return false;
      }
      var (s, computed) := a.squeeze(backend);
      backend := s;
      accepted, inBackend := accepted + [TagOp], inBackend + [TagOp];
      return computed == tag[..];
    }

    // The whole message in one call.
    method Cipher(out: array<byte>, outsize: nat, input: seq<byte>) returns (ok: bool, outl: nat)
      requires Valid() && out != tag && outsize <= out.Length
      modifies `backend, `dataStarted, `accepted, `inBackend, `tagSet, tag, out
      ensures var r := Process(a, old(Abs()), input, outsize);
        && (!r.ok ==> !ok && Abs() == r.next)
        && (r.ok ==> (Abs(), ok) == AeadModel.Final(a, r.next))
        && (ok ==> outl == |r.out| <= out.Length && out[..outl] == r.out)
    {
      ok, outl := Update(out, outsize, input);
      if !ok {
        return false, 0;
      }
      ok := Final();
    }

    // The tag as a caller reads it back, once there is one.
    method GetTag() returns (value: Option<seq<byte>>)
      requires Valid()
      ensures value == Abs().Tag()
    {
      return if tagSet then Some(tag[..]) else None;
    }
  }
}
