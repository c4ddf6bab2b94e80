// The HMAC context: inner and outer states set up from the padded key, refining HmacModel.
module HmacMac {
  import opened Bytes
  import opened Hashing
  import opened HmacModel
  import opened Options
  import opened Secrets

  // The memory a Bee2 state lives in: a hash state, a state of the belt-hmac primitive, or what is
  // left when the functions of one algorithm have run on the state of another.
  datatype Backend = Blank | Hashed(alg: Digest, state: HashState) | BeltHmac(key: seq<byte>, absorbed: seq<byte>)
      | Muddled

  // The update function of digest d on a state.
  function Absorb(b: Backend, d: Digest, input: seq<byte>): Backend {
    if d.BeltHash? && b.BeltHmac? then b.(absorbed := b.absorbed + input)
    else if !d.BeltHash? && b.Hashed? && b.alg == d then b.(state := b.state.Update(input))
    else Muddled
  }

  // The final function of digest d on a state.
  function Squeeze(p: Primitives, b: Backend, d: Digest): (r: seq<byte>)
    requires p.Valid()
    ensures |r| == DigestSize(d)
  {
    if d.BeltHash? && b.BeltHmac? then p.beltHmac(b.key, b.absorbed)
    else if !d.BeltHash? && b.Hashed? && b.alg == d then p.hash(d).digest(b.state.absorbed)
    else p.muddled(d)
  }

  class Hmac {
    const p: Primitives
    var backend: Backend
    var outer: Backend
    var digest: Digest
    var key: seq<byte>
    var keySet: bool
    var outputSize: nat
    var outputSizeSet: bool
    var initialized: bool
    ghost var running: Phase

    ghost function Abs(): Ctx
      reads this
    {
      Ctx(digest, if keySet then Some(key) else None, outputSize, outputSizeSet, if initialized then running else Idle)
    }

    // The states are what setting up the key and absorbing the message leaves.
    ghost predicate Represents(r: Phase)
      requires p.Valid() && r.Running?
      reads `backend, `outer
    {
      if r.foreign then backend == Muddled
      else if r.alg.BeltHash? then backend == BeltHmac(r.key, r.message)
      else
        var block := KeyBlock(p.hash(r.alg), r.key);
        && backend == Hashed(r.alg, HashState(Masked(block, IPAD) + r.message))
        && outer == Hashed(r.alg, HashState(Masked(block, OPAD)))
    }

    ghost predicate Valid()
      reads this
    {
      && p.Valid()
      && Abs().WellFormed()
      && (initialized ==> running.Running? && Represents(running))
    }

    constructor (p: Primitives)
      requires p.Valid()
      ensures Valid() && this.p == p && Abs() == NEW_CTX == Ctx(BeltHash, None, 32, false, Idle)
    {
      this.p := p;
      backend, outer, digest := Blank, Blank, BeltHash;
      key, keySet := [], false;
      outputSize, outputSizeSet, initialized := DigestSize(BeltHash), false, false;
      running := Idle;
    }

    constructor Copied(source: Hmac)
      requires source.Valid()
      ensures Valid() && p == source.p && Abs() == source.Abs()
    {
      p, backend, outer, digest := source.p, source.backend, source.outer, source.digest;
      key, keySet := if source.keySet then source.key else [], source.keySet;
      outputSize, outputSizeSet, initialized := source.outputSize, source.outputSizeSet, source.initialized;
      running := source.running;
    }

    // A duplicate goes on from the same message on its own; there is none without memory for it or for
    // its copy of the key.
    method Dup(dstAllocated: bool, keyCopied: bool) returns (dst: Hmac?)
      requires Valid()
      ensures dst == null <==> !dstAllocated || (keySet && !keyCopied)
      ensures dst != null ==> fresh(dst) && dst.Valid() && dst.p == p && dst.Abs() == Abs()
    {
      if !dstAllocated || (keySet && !keyCopied) {
        return null;
      }
      dst := new Hmac.Copied(this);
    }

    method SetDigestParam(d: DigestParam) returns (ok: bool)
      requires Valid()
      modifies `digest, `outputSize, `initialized
      ensures Valid() && (Abs(), ok) == SetDigest(old(Abs()), d)
    {
      match d {
        case NotGiven => return true;
        case Unrecognised => return false;
        case Named(named) => digest := named;
      }
      if !outputSizeSet {
        outputSize := DigestSize(digest);
      } else if outputSize > DigestSize(digest) {
        return false;
      }
      initialized := false;
      return true;
    }

    method SetSizeAndKeyParams(size: Option<nat>, newKey: Option<Secret>) returns (ok: bool)
      requires Valid()
      modifies `outputSize, `outputSizeSet, `key, `keySet, `initialized
      ensures Valid()
      ensures var s := SetSize(old(Abs()), size);
        (Abs(), ok) == if s.1 then SetKey(s.0, newKey) else s
    {
      if size.Some? {
        if size.value == 0 || size.value > DigestSize(digest) {
          return false;
        }
        outputSize, outputSizeSet := size.value, true;
      }
      if newKey.Some? {
        if |newKey.value.value| == 0 || !newKey.value.copied {
          return false;
        }
        key, keySet, initialized := newKey.value.value, true, false;
      }
      return true;
    }

    method SetCtxParams(params: Params) returns (ok: bool)
      requires Valid()
      modifies `digest, `outputSize, `outputSizeSet, `key, `keySet, `initialized
      ensures Valid() && (Abs(), ok) == SetParams(old(Abs()), params)
    {
      ok := SetDigestParam(params.digest);
      if ok {
        ok := SetSizeAndKeyParams(params.size, params.key);
      }
    }

    // The key block and the two padded states.
    method Start()
      requires p.Valid() && Abs().WellFormed() && keySet
      modifies `backend, `outer, `initialized, `running
      ensures Valid() && Abs() == old(Abs()).(phase := Running(digest, key, [], false))
    {
      running := Running(digest, key, [], false);
      if digest.BeltHash? {
        backend := BeltHmac(key, []);
        initialized := true;
        return;
      }
      SetStates();
      initialized := true;
    }

    method SetStates()
      requires p.Valid() && !digest.BeltHash?
      modifies `backend, `outer
      ensures Represents(Running(digest, key, [], false))
    {
      hide KeyBlock, Masked;
      var h := p.hash(digest);
      var keyBlock := FillKeyBlock(h, key);
      var pad := new byte[BlockSize(digest)](_ => 0);
      MaskInto(keyBlock, IPAD, pad);
      backend := Hashed(digest, HASH_START.Update(pad[..]));
      assert backend.state.absorbed == Masked(KeyBlock(h, key), IPAD) + [];
      MaskInto(keyBlock, OPAD, pad);
      outer := Hashed(digest, HASH_START.Update(pad[..]));
    }

    method Init(newKey: Option<Secret>, params: Params) returns (ok: bool)
      requires Valid()
      modifies this
      ensures Valid() && (Abs(), ok) == HmacModel.Init(old(Abs()), newKey, params)
    {
      ok := SetCtxParams(params);
      if !ok {
        return;
      }
      if newKey.Some? {
        if |newKey.value.value| == 0 || !newKey.value.copied {
          return false;
        }
        key, keySet := newKey.value.value, true;
      }
      if !keySet {
        return false;
      }
      Start();
    }

    method Update(input: seq<byte>) returns (ok: bool)
      requires Valid()
      modifies `backend, `running
      ensures Valid() && (Abs(), ok) == HmacModel.Update(old(Abs()), input)
    {
      if !initialized {
        return false;
      }
      Feed(input);
      return true;
    }

    method Feed(input: seq<byte>)
      requires p.Valid() && running.Running? && Represents(running)
      modifies `backend, `running
      ensures running == old(running).(message := old(running).message + input,
                                       foreign := old(running).foreign || (input != [] && digest != old(running).alg))
      ensures Represents(running)
    {
      hide KeyBlock, Masked;
      ghost var block := KeyBlock(p.hash(running.alg), running.key);
      ghost var message := running.message;
      ghost var foreign := running.foreign || (input != [] && digest != running.alg);
      running := running.(message := message + input, foreign := foreign);
      if |input| > 0 {
        backend := Absorb(backend, digest, input);
        assert Masked(block, IPAD) + (message + input) == Masked(block, IPAD) + message + input;
      } else {
        assert message + input == message;
      }
    }

    // Without an output buffer the call only tells the size; room is what the buffer holds.
    method Final(out: array?<byte>, room: nat) returns (ok: bool, outl: nat)
      requires Valid() && (out != null ==> room <= out.Length)
      modifies `initialized, out
      ensures Valid()
      ensures out == null ==> Abs() == old(Abs()) && ok == old(initialized) && (ok ==> outl == outputSize)
      ensures out != null ==> Abs() == HmacModel.Final(old(Abs()), room) && ok == Finishes(old(Abs()), room)
      ensures out != null && ok ==> outl == outputSize <= room
      ensures out != null && ok && old(Abs()).Coherent() ==>
        && out[..outl] == Tag(p, old(Abs()))
        && SpelledOut(p, digest, old(running).key, old(running).message, out[..outl])
      ensures out != null ==> out[if ok then outl else 0..] == old(out[if ok then outl else 0..])
    {
      hide SpelledOut;
      if !initialized {
        return false, 0;
      }
      if out == null {
        return true, outputSize;
      }
      if room < outputSize || outputSize > DigestSize(digest) {
        return false, 0;
      }
      var fullMac := Squeeze(p, backend, digest);
      if !digest.BeltHash? {
        // Finished on a copy, so the outer state stays set up.
        var copied := Absorb(outer, digest, fullMac);
        fullMac := Squeeze(p, copied, digest);
      }
      forall i | 0 <= i < outputSize {
        out[i] := fullMac[i];
      }
      if Abs().Coherent() {
        TagIsSpelledOut(p, Abs());
      }
      initialized := false;
      return true, outputSize;
    }
  }
}
