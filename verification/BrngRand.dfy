// The BRNG context: counter, chaining value, reserve and hash bases updated in place, refining
// the life cycle of BrngContext.
module BrngRand {
  import opened Bytes
  import opened Hashing
  import opened Options
  import opened BrngModel
  import opened BrngContext
  import opened Secrets

  // Incrementing an octet string carries out of an octet exactly when it is 255.
  lemma IncrementCarries(t: seq<byte>)
    requires t != []
    ensures Increment(t) == if t[0] == 255 then [0] + Increment(t[1..]) else [t[0] + 1] + t[1..]
  {
    var v := LeValue(t[1..]);
    LeBytesOfValue(t[1..]);
    if t[0] == 255 {
      DivModUnique(LeValue(t) + 1, 256, v + 1, 0);
    } else {
      DivModUnique(LeValue(t) + 1, 256, v, t[0] as nat + 1);
    }
  }

  function Carried(t: seq<byte>, carry: byte): (u: seq<byte>)
    ensures |u| == |t|
  {
    if carry == 1 then Increment(t) else t
  }

  lemma CarryOn(t: seq<byte>, carry: byte)
    requires t != [] && carry <= 1
    ensures var v := t[0] as nat + carry as nat;
      Carried(t, carry) == [(v % 256) as byte] + Carried(t[1..], (v / 256) as byte)
  {
    IncrementCarries(t);
  }

  // The carry into octet i.
  function CarryInto(t: seq<byte>, carry: byte, i: nat): (c: byte)
    requires i <= |t| && carry <= 1
    ensures c <= 1
  {
    if i == 0 then carry else CarryInto(t[1..], ((t[0] as nat + carry as nat) / 256) as byte, i - 1)
  }

  lemma {:induction false} CarryAt(t: seq<byte>, carry: byte, i: nat)
    requires i < |t| && carry <= 1
    ensures var v := t[i] as nat + CarryInto(t, carry, i) as nat;
      Carried(t, carry)[i] as nat == v % 256 && CarryInto(t, carry, i + 1) as nat == v / 256
    decreases |t|
  {
    hide Carried;
    CarryOn(t, carry);
    var rest, next := t[1..], ((t[0] as nat + carry as nat) / 256) as byte;
    if i == 0 {
      assert CarryInto(t, carry, 1) == CarryInto(rest, next, 0);
    } else {
      CarryAt(rest, next, i - 1);
      assert t[i] == rest[i - 1];
    }
  }

  // The octet and the carry out of it.
  method AddCarry(b: byte, carry: byte) returns (low: byte, high: byte)
    requires carry <= 1
    ensures var v := b as nat + carry as nat; low as nat == v % 256 && high as nat == v / 256 && high <= 1
  {
    var v := b as nat + carry as nat;
    low, high := (v % 256) as byte, (v / 256) as byte;
  }

  // Adds one, modulo 256^n, to the little-endian number in a block of n octets (n is 32 here).
  method CtrBlockInc(block: array<byte>)
    requires block.Length > 0
    modifies block
    ensures block[..] == Increment(old(block[..]))
  {
    var n := block.Length;
    ghost var was := block[..];
    ghost var result := Carried(was, 1);
    assert result == Increment(was) && CarryInto(was, 1, 0) == 1;
    hide *;
    var carry: byte := 1;
    var i := 0;
    while i < n - 1
      invariant 0 <= i <= n - 1
      invariant carry == CarryInto(was, 1, i)
      invariant forall j :: i <= j < n ==> block[j] == was[j]
      invariant forall j :: 0 <= j < i ==> block[j] == result[j]
    {
      CarryAt(was, 1, i);
      block[i], carry := AddCarry(block[i], carry);
      i := i + 1;
    }
    CarryAt(was, 1, i);
    block[n - 1], carry := AddCarry(block[n - 1], carry);
    SameOctets(block[..], result);
  }

  datatype State = UNINITIALISED | READY | ERROR

  // A run of the generator, block by block: chains[k] is the state behind k blocks, and y is
  // what the blocks spell.
  datatype Trace = Trace(seed: Seed, xs: seq<seq<byte>>, chains: seq<Chain>, y: seq<byte>) {
    ghost predicate Valid(h: HashAlg)
      requires BeltHash(h)
    {
      && |chains| == |xs| + 1 && |y| == BLOCK * |xs|
      && (forall k :: 0 <= k < |chains| ==> chains[k].Valid())
      && (forall k :: 0 <= k < |xs| ==> Follows(h, k))
    }

    predicate Has(k: nat) {
      BLOCK * k + BLOCK <= |y|
    }

    function Made(k: nat): seq<byte>
      requires Has(k)
    {
      y[BLOCK * k..BLOCK * k + BLOCK]
    }

    ghost predicate Follows(h: HashAlg, k: nat)
      requires BeltHash(h) && k < |xs| && |chains| == |xs| + 1 && |y| == BLOCK * |xs| && chains[k].Valid()
    {
      && chains[k + 1] == Advance(h, seed, chains[k], xs[k])
      && y[..BLOCK * k + BLOCK] == y[..BLOCK * k] + BlockAt(h, seed, chains[k], xs[k])
    }
  }

  // Writing a block at done leaves what is before and after it, and extends the slice it follows.
  lemma BlockWritten(was: seq<byte>, now: seq<byte>, start: nat, done: nat, outlen: nat)
    requires start <= done && done + BLOCK <= outlen <= |was| == |now|
    requires now[..done] == was[..done] && now[done + BLOCK..] == was[done + BLOCK..]
    ensures now[start..done + BLOCK] == was[start..done] + now[done..done + BLOCK]
    ensures now[..start] == was[..start] && now[outlen..] == was[outlen..]
  {
    assert now[start..done] == now[..done][start..] == was[..done][start..];
    assert now[..start] == now[..done][..start] == was[..done][..start];
    assert now[outlen..] == now[done + BLOCK..][outlen - done - BLOCK..];
    assert was[outlen..] == was[done + BLOCK..][outlen - done - BLOCK..];
  }

  lemma TraceThen(h: HashAlg, u: Trace, t: Trace, x: seq<byte>)
    requires BeltHash(h) && u.Valid(h) && t.seed == u.seed && t.xs == u.xs + [x]
    requires t.chains == u.chains + [Advance(h, u.seed, u.chains[|u.xs|], x)]
    requires t.y == u.y + BlockAt(h, u.seed, u.chains[|u.xs|], x)
    ensures t.Valid(h)
  {
    hide BlockAt, Advance;
    var n := |u.xs|;
    forall k | 0 <= k <= n
      ensures t.Follows(h, k)
    {
      if k < n {
        assert u.Follows(h, k);
        assert t.y[..BLOCK * k + BLOCK] == u.y[..BLOCK * k + BLOCK] && t.y[..BLOCK * k] == u.y[..BLOCK * k];
      } else {
        assert t.y[..BLOCK * k + BLOCK] == t.y && t.y[..BLOCK * k] == u.y;
      }
    }
  }

  lemma CountBlocks(n: nat, k: nat)
    requires BLOCK * k <= n < BLOCK * k + BLOCK
    ensures BlockCount(n) == if n == BLOCK * k then k else k + 1
  {
  }

  lemma PartialWritten(was: seq<byte>, now: seq<byte>, start: nat, done: nat, outlen: nat, y: seq<byte>, n: nat)
    requires start <= done <= outlen <= |was| == |now| && done - start == n && n + BLOCK == |y|
        && outlen - done <= BLOCK
    requires now[..done] == was[..done] && was[start..done] == y[..n]
    requires now[done..outlen] == y[n..n + BLOCK][..outlen - done]
    ensures now[start..outlen] == y[..outlen - start]
    ensures now[..start] == was[..start]
    ensures y[n..n + BLOCK][outlen - done..] == y[outlen - start..]
  {
    assert now[start..done] == now[..done][start..] == was[..done][start..] == was[start..done];
    assert now[..start] == now[..done][..start] == was[..done][..start];
    assert now[start..outlen] == now[start..done] + now[done..outlen];
  }

  lemma JoinServed(o: seq<byte>, pending: seq<byte>, y: seq<byte>, done: nat, outlen: nat)
    requires done == |pending| <= outlen <= |o| && outlen - done <= |y|
    requires o[..done] == pending && o[done..outlen] == y[..outlen - done]
    ensures o[..outlen] == (pending + y)[..outlen]
    ensures y[outlen - done..] == (pending + y)[outlen..]
  {
    assert o[..outlen] == o[..done] + o[done..outlen];
  }

  lemma CutSum(o: seq<byte>, y: seq<byte>, pos: nat, n: nat)
    requires pos <= |o| && pos + n <= |o| + |y|
    ensures (o + y)[pos..pos + n] == (o[pos..] + y)[..n]
    ensures (o + y)[pos + n..] == (o[pos..] + y)[n..]
  {
  }

  ghost predicate RunFrom(h: HashAlg, seed: Seed, all: seq<seq<byte>>, n: nat, t: Trace)
    requires BeltHash(h) && seed.Valid() && n <= |all|
  {
    && t.Valid(h) && t.seed == seed && t.xs == all[n..]
    && t.chains[0] == ChainAfter(h, seed, all[..n])
    && t.chains[|t.xs|] == ChainAfter(h, seed, all)
    && Output(h, seed, all) == Output(h, seed, all[..n]) + t.y
  }

  lemma FrontSlices<T>(all: seq<T>, n: nat)
    requires n < |all|
    ensures all[..|all| - 1][..n] == all[..n]
    ensures all[..|all| - 1][n..] + [all[|all| - 1]] == all[n..]
  {
  }

  lemma RunGrows(h: HashAlg, seed: Seed, all: seq<seq<byte>>, n: nat, u: Trace) returns (t: Trace)
    requires BeltHash(h) && seed.Valid() && n < |all|
    requires RunFrom(h, seed, all[..|all| - 1], n, u)
    ensures RunFrom(h, seed, all, n, t)
  {
    hide BlockAt, Advance;
    var before, x := all[..|all| - 1], all[|all| - 1];
    FrontSlices(all, n);
    var c := ChainAfter(h, seed, before);
    t := Trace(seed, all[n..], u.chains + [Advance(h, seed, c, x)], u.y + BlockAt(h, seed, c, x));
    TraceThen(h, u, t, x);
    OutputGrows(h, seed, all, Output(h, seed, all[..n]), u.y);
  }

  lemma OutputGrows(h: HashAlg, seed: Seed, all: seq<seq<byte>>, first: seq<byte>, y: seq<byte>)
    requires BeltHash(h) && seed.Valid() && all != []
    requires Output(h, seed, all[..|all| - 1]) == first + y
    ensures var c := ChainAfter(h, seed, all[..|all| - 1]);
      && Output(h, seed, all) == first + (y + BlockAt(h, seed, c, all[|all| - 1]))
      && ChainAfter(h, seed, all) == Advance(h, seed, c, all[|all| - 1])
  {
    var c := ChainAfter(h, seed, all[..|all| - 1]);
    AppendAssociates(first, y, BlockAt(h, seed, c, all[|all| - 1]));
  }

  // The run that makes the blocks of all from the n-th on.
  lemma {:induction false} TraceFrom(h: HashAlg, seed: Seed, all: seq<seq<byte>>, n: nat) returns (t: Trace)
    requires BeltHash(h) && seed.Valid() && n <= |all|
    ensures RunFrom(h, seed, all, n, t)
    decreases |all|
  {
    if n == |all| {
      assert all[..n] == all;
      t := Trace(seed, [], [ChainAfter(h, seed, all)], []);
    } else {
      var u := TraceFrom(h, seed, all[..|all| - 1], n);
      t := RunGrows(h, seed, all, n, u);
    }
  }

  function Pending(h: HashAlg, r: Reader): (p: seq<byte>)
    requires BeltHash(h) && r.Valid()
    ensures |p| == r.reserved
  {
    Output(h, r.seed, r.xs)[r.Position()..]
  }

  function Used(r: Reader, addin: seq<byte>): seq<byte> {
    if r.seed.mode.CtrHbelt? then addin else []
  }

  // A request is served from what is pending and then from the run that makes its new blocks.
  lemma ReadFromTrace(h: HashAlg, from: Reader, outlen: nat, addin: seq<byte>, t: Trace)
    requires BeltHash(h) && from.Valid()
    requires t.xs == AddinBlocks(Used(from, addin), from.Need(outlen))
    requires Output(h, from.seed, from.xs + t.xs) == Output(h, from.seed, from.xs) + t.y
    ensures var to, z := from.After(outlen, addin), Pending(h, from) + t.y;
      && to.xs == from.xs + t.xs
      && outlen <= |z|
      && from.Read(h, outlen, addin) == z[..outlen]
      && Pending(h, to) == z[outlen..]
  {
    hide Output, AddinBlocks;
    CutSum(Output(h, from.seed, from.xs), t.y, from.Position(), outlen);
  }

  // The run that a request makes the generator go through.
  lemma RunOf(h: HashAlg, from: Reader, outlen: nat, addin: seq<byte>) returns (t: Trace)
    requires BeltHash(h) && from.Valid()
    ensures t.Valid(h) && t.seed == from.seed && t.xs == AddinBlocks(Used(from, addin), from.Need(outlen))
    ensures t.chains[0] == ChainAfter(h, from.seed, from.xs)
    ensures var to, z := from.After(outlen, addin), Pending(h, from) + t.y;
      && t.chains[|t.xs|] == ChainAfter(h, from.seed, to.xs)
      && outlen <= |z|
      && from.Read(h, outlen, addin) == z[..outlen]
      && Pending(h, to) == z[outlen..]
  {
    var blocks := AddinBlocks(Used(from, addin), from.Need(outlen));
    var all := from.xs + blocks;
    t := TraceFrom(h, from.seed, all, |from.xs|);
    assert all[..|from.xs|] == from.xs && all[|from.xs|..] == blocks;
    ReadFromTrace(h, from, outlen, addin, t);
  }

  // The next slice of the additional input, at most limit octets, padded to a block.
  method CutAddin(addin: seq<byte>, off: nat, limit: nat, ghost need: nat, ghost k: nat)
    returns (x: seq<byte>, next: nat)
    requires off == Min(BLOCK * k, |addin|) && BLOCK * k < need && limit == Min(BLOCK, need - BLOCK * k)
    ensures k < BlockCount(need) && x == AddinBlocks(addin, need)[k] && |x| == BLOCK
    ensures next == Min(BLOCK * k + limit, |addin|)
  {
    var take := Min(|addin| - off, limit);
    x := ZeroPad(addin[off..off + take], BLOCK);
    next := off + take;
    AddinBlockOctets(addin, need, k);
    assert x == AddinBlock(addin, need, k);
  }

  class Brng {
    const h: HashAlg
    const mode: Mode
    var state: State
    var instantiated: bool
    var key: seq<byte>
    var haveKey: bool
    var iv: seq<byte>
    var haveIv: bool
    var ctrKeyBase: HashState
    var hmacInnerBase: HashState
    var hmacOuterBase: HashState
    const s: array<byte>
    const r: array<byte>
    const block: array<byte>
    var reserved: nat
    ghost var reader: Reader

    ghost predicate Shape() {
      && BeltHash(h)
      && s.Length == BLOCK && r.Length == BLOCK && block.Length == BLOCK
      && s != r && s != block && r != block
    }

    ghost predicate BasesFor(seed: Seed)
      requires Shape()
      reads `ctrKeyBase, `hmacInnerBase, `hmacOuterBase
    {
      match mode
      case CtrHbelt => ctrKeyBase.absorbed == seed.key
      case HmacHbelt =>
        Pad(h, seed.key, 0x36, hmacInnerBase.absorbed) && Pad(h, seed.key, 0x5C, hmacOuterBase.absorbed)
    }

    // The buffers stand where the reader stands in its stream; only the last reserved octets of
    // the block matter.
    ghost predicate StandsAt(at: Reader)
      requires Shape()
      reads `ctrKeyBase, `hmacInnerBase, `hmacOuterBase, `reserved, s, r, block
    {
      && at.Valid() && at.seed.mode == mode
      && reserved == at.reserved
      && BasesFor(at.seed)
      && Chain(s[..], r[..]) == ChainAfter(h, at.seed, at.xs)
      && block[BLOCK - reserved..] == Pending(h, at)
    }

    ghost function Abs(): Ctx
      reads this
    {
      Ctx(mode, if haveKey then Some(key) else None, if haveIv then Some(iv) else None,
          match state case UNINITIALISED => Uninitialised case READY => Ready(reader) case ERROR => Failed)
    }

    // What holds even between replacing a secret and starting the stream again.
    ghost predicate Fits()
      reads this
    {
      && Shape()
      && (instantiated <==> state.READY?)
      && Abs().ParamsFit()
      && (state.READY? ==> haveKey && (mode.CtrHbelt? ==> haveIv))
      && reserved < BLOCK
    }

    ghost predicate Valid()
      reads this, s, r, block
    {
      && Fits()
      && Abs().WellFormed()
      && (state.READY? ==> StandsAt(reader))
    }

    constructor (h: HashAlg, mode: Mode)
      requires BeltHash(h)
      ensures Valid() && this.h == h && Abs() == NewCtx(mode) == Ctx(mode, None, None, Uninitialised)
      ensures fresh(s) && fresh(r) && fresh(block)
    {
      this.h, this.mode := h, mode;
      state, instantiated := UNINITIALISED, false;
      key, haveKey, iv, haveIv := [], false, [], false;
      ctrKeyBase, hmacInnerBase, hmacOuterBase := HASH_START, HASH_START, HASH_START;
      s, r, block := new byte[BLOCK](_ => 0), new byte[BLOCK](_ => 0), new byte[BLOCK](_ => 0);
      reserved := 0;
      reader := Reader(Seed(mode, [], Zeros(BLOCK)), [], 0);
    }

    // ------------------------------------------------------------ HMAC over precomputed bases

    method HmacBasesInit()
      requires Shape() && haveKey
      modifies this`hmacInnerBase, this`hmacOuterBase
      ensures Pad(h, key, 0x36, hmacInnerBase.absorbed) && Pad(h, key, 0x5C, hmacOuterBase.absorbed)
    {
      hide KeyBlock, Masked, Pad;
      var keyBlock := FillKeyBlock(h, key);
      var pad := new byte[BLOCK](_ => 0);
      MaskInto(keyBlock, IPAD, pad);
      hmacInnerBase := HASH_START.Update(pad[..]);
      PadIsMasked(h, key, 0x36, hmacInnerBase.absorbed);
      MaskInto(keyBlock, OPAD, pad);
      hmacOuterBase := HASH_START.Update(pad[..]);
      PadIsMasked(h, key, 0x5C, hmacOuterBase.absorbed);
    }

    method HmacCompute(part1: seq<byte>, part2: seq<byte>, ghost seed: Seed) returns (mac: seq<byte>)
      requires Shape() && mode.HmacHbelt? && BasesFor(seed)
      ensures mac == Hmac(h, seed.key, part1 + part2)
      ensures mac == h.digest(hmacOuterBase.absorbed + h.digest(hmacInnerBase.absorbed + (part1 + part2)))
    {
      hide Hmac, Pad;
      var inner, outer := hmacInnerBase, hmacOuterBase;
      inner := inner.Update(part1).Update(part2);
      assert inner.absorbed == hmacInnerBase.absorbed + (part1 + part2);
      outer := outer.Update(h.digest(inner.absorbed));
      HmacIsRfc2104(h, seed.key, part1 + part2, hmacInnerBase.absorbed, hmacOuterBase.absorbed);
      mac := h.digest(outer.absorbed);
    }

    // ------------------------------------------------------------ preparation

    // The counter is the IV, the chaining value its complement.
    method LoadIv()
      requires Shape() && |iv| == BLOCK
      modifies s, r
      ensures s[..] == iv && forall j :: 0 <= j < 32 ==> r[j] == 255 - iv[j]
    {
      forall i | 0 <= i < BLOCK {
        s[i] := iv[i];
      }
      forall i | 0 <= i < BLOCK {
        r[i] := 255 - s[i];
      }
      SameOctets(s[..], iv);
    }

    method PrepareCtr()
      requires Shape() && mode.CtrHbelt? && haveKey && |key| == BLOCK && haveIv && |iv| == BLOCK
      modifies this`ctrKeyBase, this`reserved, s, r, block
      ensures StandsAt(Reader(Seed(mode, key, iv), [], 0))
    {
      ctrKeyBase := HASH_START.Update(key);
      LoadIv();
      SameOctets(r[..], Complement(iv));
      forall i | 0 <= i < BLOCK {
        block[i] := 0;
      }
      reserved := 0;
    }

    method PrepareHmac()
      requires Shape() && mode.HmacHbelt? && haveKey && s[..] == Zeros(BLOCK)
      modifies this`hmacInnerBase, this`hmacOuterBase, this`reserved, r, block
      ensures StandsAt(Reader(Seed(mode, key, if haveIv then iv else []), [], 0))
      ensures var inner, outer := hmacInnerBase.absorbed, hmacOuterBase.absorbed;
        && Pad(h, key, 0x36, inner) && Pad(h, key, 0x5C, outer)
        && r[..] == h.digest(outer + h.digest(inner + if haveIv then iv else []))
    {
      ghost var seed := Seed(mode, key, if haveIv then iv else []);
      HmacBasesInit();
      var mac := HmacCompute(if haveIv then iv else [], [], seed);
      assert seed.iv + [] == seed.iv;
      forall i | 0 <= i < BLOCK {
        r[i] := mac[i];
      }
      forall i | 0 <= i < BLOCK {
        block[i] := 0;
      }
      reserved := 0;
      assert r[..] == mac;
    }

    // ------------------------------------------------------------ generation

    method CtrMakeBlock(x: seq<byte>, y: array<byte>, off: nat, ghost seed: Seed)
      requires Shape() && mode.CtrHbelt? && seed.mode == mode && BasesFor(seed)
      requires |x| == BLOCK && off + BLOCK <= y.Length && y != s && y != r
      modifies s, r, y
      ensures y[off..off + BLOCK] == BlockAt(h, seed, Chain(old(s[..]), old(r[..])), x)
           == h.digest(seed.key + old(s[..]) + x + old(r[..]))
      ensures y[..off] == old(y[..off]) && y[off + BLOCK..] == old(y[off + BLOCK..])
      ensures Chain(s[..], r[..]) == Advance(h, seed, Chain(old(s[..]), old(r[..])), x)
           == Chain(Increment(old(s[..])), XorBytes(old(r[..]), y[off..off + BLOCK]))
    {
      hide Increment, Hmac;
      ghost var wasS, was := s[..], r[..];
      var forked := ctrKeyBase;
      forked := forked.Update(s[..]).Update(x).Update(r[..]);
      var d := h.digest(forked.absorbed);
      forall i | 0 <= i < BLOCK {
        y[off + i] := d[i];
      }
      assert s[..] == wasS && r[..] == was;
      CtrBlockInc(s);
      var i := 0;
      while i < BLOCK
        invariant 0 <= i <= BLOCK
        invariant y[off..off + BLOCK] == d
        invariant y[..off] == old(y[..off]) && y[off + BLOCK..] == old(y[off + BLOCK..])
        invariant s[..] == Increment(old(s[..]))
        invariant forall j :: 0 <= j < i ==> r[j] == Xor(was[j], d[j])
        invariant forall j :: i <= j < BLOCK ==> r[j] == was[j]
      {
        assert y[off + i] == y[off..off + BLOCK][i];
        r[i] := Xor(r[i], y[off + i]);
        i := i + 1;
      }
      assert r[..] == XorBytes(was, d);
    }

    // Serves what the reserve holds; done tells how many octets that was.
    method TakeReserve(out: array<byte>, outlen: nat) returns (done: nat, served: bool)
      requires Shape() && reserved < BLOCK && outlen <= out.Length && out != block
      modifies this`reserved, out
      ensures done == Min(outlen, old(reserved)) && reserved == old(reserved) - done
      ensures out[..done] == block[BLOCK - old(reserved)..][..done]
      ensures out[outlen..] == old(out[outlen..])
      ensures served ==> done == outlen
      ensures !served ==> reserved == 0
    {
      done, served := 0, false;
      if reserved > 0 {
        done := Min(outlen, reserved);
        served := reserved >= outlen;
        var from := BLOCK - reserved;
        forall i | 0 <= i < done {
          out[i] := block[from + i];
        }
        reserved := reserved - done;
      }
    }

    ghost predicate Separate(out: array<byte>) {
      out != s && out != r && out != block
    }

    // The buffers stand at chain c, with the bases of the seed and nothing in reserve.
    ghost predicate AtChain(seed: Seed, c: Chain)
      requires Shape()
      reads this, s, r
    {
      && seed.mode == mode && BasesFor(seed)
      && reserved == 0
      && Chain(s[..], r[..]) == c
    }

    // Serves the front of the block just made and keeps the rest in reserve.
    method ServeTail(out: array<byte>, done: nat, outlen: nat)
      requires block.Length == BLOCK && out != block
      requires done < outlen <= out.Length && outlen < done + BLOCK
      modifies this`reserved, out
      ensures reserved == BLOCK - (outlen - done)
      ensures out[..done] == old(out[..done]) && out[done..outlen] == block[..outlen - done]
      ensures out[outlen..] == old(out[outlen..])
    {
      var left := outlen - done;
      forall i | 0 <= i < left {
        out[done + i] := block[i];
      }
      reserved := BLOCK - left;
    }

    // Makes block k of the run t from the next slice of the additional input.
    method CtrNextBlock(addin: seq<byte>, addinOff: nat, limit: nat, y: array<byte>, off: nat,
        ghost t: Trace, ghost k: nat, ghost need: nat) returns (next: nat)
      requires Shape() && mode.CtrHbelt? && off + BLOCK <= y.Length && y != s && y != r
      requires t.Valid(h) && k < |t.xs| && AtChain(t.seed, t.chains[k])
      requires t.xs == AddinBlocks(addin, need) && BLOCK * k < need
      requires addinOff == Min(BLOCK * k, |addin|) && limit == Min(BLOCK, need - BLOCK * k)
      modifies s, r, y
      ensures AtChain(t.seed, t.chains[k + 1])
      ensures t.Has(k) && y[off..off + BLOCK] == t.Made(k)
      ensures y[..off] == old(y[..off]) && y[off + BLOCK..] == old(y[off + BLOCK..])
      ensures next == Min(BLOCK * k + limit, |addin|)
    {
      var x: seq<byte>;
      x, next := CutAddin(addin, addinOff, limit, need, k);
      assert t.Follows(h, k);
      CtrMakeBlock(x, y, off, t.seed);
      assert t.Made(k) == t.y[..BLOCK * k + BLOCK][BLOCK * k..];
    }

    // The whole blocks of a request: the k-th is made from the k-th slice of the additional input.
    method CtrWholeBlocks(out: array<byte>, start: nat, outlen: nat, addin: seq<byte>, ghost t: Trace)
      returns (done: nat, addinOff: nat, ghost k: nat)
      requires Shape() && Separate(out) && mode.CtrHbelt? && start <= outlen <= out.Length
      requires t.Valid(h) && AtChain(t.seed, t.chains[0])
      requires t.xs == AddinBlocks(addin, outlen - start)
      modifies s, r, out
      ensures start <= done <= outlen < done + BLOCK && k <= |t.xs|
      ensures |t.xs| == if done == outlen then k else k + 1
      ensures |t.y| == if done == outlen then BLOCK * k else BLOCK * k + BLOCK
      ensures done == start + BLOCK * k
      ensures addinOff == Min(BLOCK * k, |addin|)
      ensures AtChain(t.seed, t.chains[k])
      ensures out[..start] == old(out[..start]) && out[outlen..] == old(out[outlen..])
      ensures out[start..done] == t.y[..BLOCK * k]
    {
      hide Trace.Follows, BasesFor, Advance, AddinBlocks;
      k := 0;
      done, addinOff := start, 0;
      while outlen - done >= BLOCK
        invariant k <= |t.xs| && start <= done <= outlen
        invariant done == start + BLOCK * k
        invariant addinOff == Min(BLOCK * k, |addin|)
        invariant AtChain(t.seed, t.chains[k])
        invariant out[..start] == old(out[..start]) && out[outlen..] == old(out[outlen..])
        invariant out[start..done] == t.y[..BLOCK * k]
      {
        ghost var was := out[..];
        addinOff := CtrNextBlock(addin, addinOff, BLOCK, out, done, t, k, outlen - start);
        BlockWritten(was, out[..], start, done, outlen);
        done := done + BLOCK;
        k := k + 1;
      }
      CountBlocks(outlen - start, k);
    }

    // The last, partial block of a request goes to the block buffer, which becomes the reserve.
    method CtrPartialBlock(out: array<byte>, done: nat, outlen: nat, addin: seq<byte>, addinOff: nat,
        ghost t: Trace, ghost k: nat, ghost start: nat)
      requires Shape() && Separate(out) && mode.CtrHbelt? && done < outlen < done + BLOCK && outlen <= out.Length
      requires t.Valid(h) && k < |t.xs| && AtChain(t.seed, t.chains[k])
      requires start <= done == start + BLOCK * k && |t.xs| == k + 1 && |t.y| == BLOCK * k + BLOCK
      requires out[start..done] == t.y[..BLOCK * k]
      requires t.xs == AddinBlocks(addin, outlen - start)
      requires addinOff == Min(BLOCK * k, |addin|)
      modifies this`reserved, s, r, block, out
      ensures ServedFresh(out, start, outlen, t)
      ensures out[..start] == old(out[..start]) && out[outlen..] == old(out[outlen..])
    {
      hide Trace.Follows, BasesFor, Advance, AddinBlocks;
      ghost var was := out[..];
      var _ := CtrNextBlock(addin, addinOff, outlen - done, block, 0, t, k, outlen - start);
      assert block[0..BLOCK] == block[..];
      ServeTail(out, done, outlen);
      PartialWritten(was, out[..], start, done, outlen, t.y, BLOCK * k);
    }

    // What the reserve does not cover: out is filled from start on with the new blocks.
    method CtrFresh(out: array<byte>, start: nat, outlen: nat, addin: seq<byte>, ghost t: Trace)
      requires Shape() && Separate(out) && mode.CtrHbelt? && start <= outlen <= out.Length
      requires t.Valid(h) && AtChain(t.seed, t.chains[0]) && t.xs == AddinBlocks(addin, outlen - start)
      modifies this`reserved, s, r, block, out
      ensures ServedFresh(out, start, outlen, t)
      ensures out[..start] == old(out[..start]) && out[outlen..] == old(out[outlen..])
    {
      hide Trace.Follows, BasesFor, Advance, AddinBlocks;
      var done, addinOff;
      ghost var k;
      done, addinOff, k := CtrWholeBlocks(out, start, outlen, addin, t);
      if outlen - done > 0 {
        CtrPartialBlock(out, done, outlen, addin, addinOff, t, k, start);
      }
    }

    // Serves a request from what is pending and then from the new blocks of the run t.
    method GenerateCtr(out: array<byte>, outlen: nat, addin: seq<byte>, ghost pending: seq<byte>, ghost t: Trace)
      requires Shape() && Separate(out) && mode.CtrHbelt? && outlen <= out.Length
      requires reserved < BLOCK && pending == block[BLOCK - reserved..]
      requires t.Valid(h) && t.seed.mode == mode && BasesFor(t.seed) && Chain(s[..], r[..]) == t.chains[0]
      requires t.xs == AddinBlocks(addin, Uncovered(reserved, outlen))
      modifies this`reserved, s, r, block, out
      ensures Served(out, outlen, pending + t.y) && Chain(s[..], r[..]) == t.chains[|t.xs|]
      ensures out[outlen..] == old(out[outlen..])
    {
      hide Trace.Follows, BasesFor, Advance, AddinBlocks;
      var done, served := TakeReserve(out, outlen);
      if served {
        assert pending + t.y == pending;
        return;
      }
      CtrFresh(out, done, outlen, addin, t);
      JoinServed(out[..], pending, t.y, done, outlen);
    }

    method HmacMakeBlock(y: array<byte>, off: nat, ghost seed: Seed, ghost x: seq<byte>)
      requires Shape() && mode.HmacHbelt? && seed.mode == mode && BasesFor(seed)
      requires seed.iv == if haveIv then iv else []
      requires off + BLOCK <= y.Length && y != s && y != r
      modifies r, y
      ensures y[off..off + BLOCK] == BlockAt(h, seed, Chain(old(s[..]), old(r[..])), x)
      ensures y[..off] == old(y[..off]) && y[off + BLOCK..] == old(y[off + BLOCK..])
      ensures Chain(s[..], r[..]) == Advance(h, seed, Chain(old(s[..]), old(r[..])), x)
    {
      var rOld := r[..];
      var rNew := HmacCompute(rOld, [], seed);
      var d := HmacCompute(rOld, if haveIv then iv else [], seed);
      assert rOld + [] == rOld;
      ghost var sOld := s[..];
      forall i | 0 <= i < BLOCK {
        y[off + i] := d[i];
      }
      forall i | 0 <= i < BLOCK {
        r[i] := rNew[i];
      }
      assert y[off..off + BLOCK] == d && r[..] == rNew && s[..] == sOld;
    }

    method HmacNextBlock(y: array<byte>, off: nat, ghost t: Trace, ghost k: nat)
      requires Shape() && mode.HmacHbelt? && off + BLOCK <= y.Length && y != s && y != r
      requires t.Valid(h) && k < |t.xs| && AtChain(t.seed, t.chains[k]) && t.seed.iv == if haveIv then iv else []
      modifies r, y
      ensures AtChain(t.seed, t.chains[k + 1])
      ensures t.Has(k) && y[off..off + BLOCK] == t.Made(k)
      ensures y[..off] == old(y[..off]) && y[off + BLOCK..] == old(y[off + BLOCK..])
    {
      assert t.Follows(h, k);
      HmacMakeBlock(y, off, t.seed, t.xs[k]);
      assert t.Made(k) == t.y[..BLOCK * k + BLOCK][BLOCK * k..];
    }

    method HmacWholeBlocks(out: array<byte>, start: nat, outlen: nat, ghost t: Trace)
      returns (done: nat, ghost k: nat)
      requires Shape() && Separate(out) && mode.HmacHbelt? && start <= outlen <= out.Length
      requires t.Valid(h) && AtChain(t.seed, t.chains[0]) && t.seed.iv == if haveIv then iv else []
      requires |t.xs| == BlockCount(outlen - start)
      modifies r, out
      ensures start <= done <= outlen < done + BLOCK && k <= |t.xs|
      ensures |t.xs| == if done == outlen then k else k + 1
      ensures |t.y| == if done == outlen then BLOCK * k else BLOCK * k + BLOCK
      ensures done == start + BLOCK * k
      ensures AtChain(t.seed, t.chains[k])
      ensures out[..start] == old(out[..start]) && out[outlen..] == old(out[outlen..])
      ensures out[start..done] == t.y[..BLOCK * k]
    {
      hide Trace.Follows, BasesFor, Advance, AddinBlocks;
      k := 0;
      done := start;
      while outlen - done >= BLOCK
        invariant k <= |t.xs| && start <= done <= outlen
        invariant done == start + BLOCK * k
        invariant AtChain(t.seed, t.chains[k])
        invariant out[..start] == old(out[..start]) && out[outlen..] == old(out[outlen..])
        invariant out[start..done] == t.y[..BLOCK * k]
      {
        ghost var was := out[..];
        HmacNextBlock(out, done, t, k);
        BlockWritten(was, out[..], start, done, outlen);
        done := done + BLOCK;
        k := k + 1;
      }
      CountBlocks(outlen - start, k);
    }

    method HmacPartialBlock(out: array<byte>, done: nat, outlen: nat, ghost t: Trace, ghost k: nat, ghost start: nat)
      requires Shape() && Separate(out) && mode.HmacHbelt? && done < outlen < done + BLOCK && outlen <= out.Length
      requires t.Valid(h) && k < |t.xs| && AtChain(t.seed, t.chains[k]) && t.seed.iv == if haveIv then iv else []
      requires start <= done == start + BLOCK * k && |t.xs| == k + 1 && |t.y| == BLOCK * k + BLOCK
      requires out[start..done] == t.y[..BLOCK * k]
      modifies this`reserved, r, block, out
      ensures ServedFresh(out, start, outlen, t)
      ensures out[..start] == old(out[..start]) && out[outlen..] == old(out[outlen..])
    {
      hide Trace.Follows, BasesFor, Advance, AddinBlocks;
      ghost var was := out[..];
      HmacNextBlock(block, 0, t, k);
      assert block[0..BLOCK] == block[..];
      ServeTail(out, done, outlen);
      PartialWritten(was, out[..], start, done, outlen, t.y, BLOCK * k);
    }

    method HmacFresh(out: array<byte>, start: nat, outlen: nat, ghost t: Trace)
      requires Shape() && Separate(out) && mode.HmacHbelt? && start <= outlen <= out.Length
      requires t.Valid(h) && AtChain(t.seed, t.chains[0]) && |t.xs| == BlockCount(outlen - start)
      requires t.seed.iv == if haveIv then iv else []
      modifies this`reserved, r, block, out
      ensures ServedFresh(out, start, outlen, t)
      ensures out[..start] == old(out[..start]) && out[outlen..] == old(out[outlen..])
    {
      hide Trace.Follows, BasesFor, Advance, AddinBlocks;
      var done;
      ghost var k;
      done, k := HmacWholeBlocks(out, start, outlen, t);
      if outlen - done > 0 {
        HmacPartialBlock(out, done, outlen, t, k, start);
      }
    }

    method GenerateHmac(out: array<byte>, outlen: nat, ghost pending: seq<byte>, ghost t: Trace)
      requires Shape() && Separate(out) && mode.HmacHbelt? && outlen <= out.Length
      requires reserved < BLOCK && pending == block[BLOCK - reserved..]
      requires t.Valid(h) && t.seed.mode == mode && BasesFor(t.seed) && Chain(s[..], r[..]) == t.chains[0]
      requires t.seed.iv == if haveIv then iv else []
      requires |t.xs| == BlockCount(Uncovered(reserved, outlen))
      modifies this`reserved, r, block, out
      ensures Served(out, outlen, pending + t.y) && Chain(s[..], r[..]) == t.chains[|t.xs|]
      ensures out[outlen..] == old(out[outlen..])
    {
      hide Trace.Follows, BasesFor, Advance, AddinBlocks;
      var done, served := TakeReserve(out, outlen);
      if served {
        assert pending + t.y == pending;
        return;
      }
      HmacFresh(out, done, outlen, t);
      JoinServed(out[..], pending, t.y, done, outlen);
    }

    // The run t is made; out holds its first octets from start to outlen, the reserve the rest.
    ghost predicate ServedFresh(out: array<byte>, start: nat, outlen: nat, t: Trace)
      requires Shape()
      reads this, s, r, block, out
    {
      && start <= outlen <= out.Length && outlen - start <= |t.y|
      && |t.chains| == |t.xs| + 1 && Chain(s[..], r[..]) == t.chains[|t.xs|]
      && reserved == |t.y| - (outlen - start) < BLOCK
      && out[start..outlen] == t.y[..outlen - start]
      && block[BLOCK - reserved..] == t.y[outlen - start..]
    }

    // The first outlen octets of z are served and the rest is in reserve.
    ghost predicate Served(out: array<byte>, outlen: nat, z: seq<byte>)
      requires Shape()
      reads this, block, out
    {
      && outlen <= out.Length && outlen <= |z| && reserved == |z| - outlen < BLOCK
      && out[..outlen] == z[..outlen]
      && block[BLOCK - reserved..] == z[outlen..]
    }

    // ------------------------------------------------------------ life cycle

    method SetKeyParam(p: Param) returns (ok: bool)
      requires Valid()
      modifies this`key, this`haveKey, this`instantiated, this`state
      ensures Valid() && (Abs(), ok) == SetKey(old(Abs()), p)
    {
      hide StandsAt;
      if p.Absent? {
        return true;
      }
      if p.Malformed? || (mode.CtrHbelt? && |p.secret.value| != BLOCK) {
        return false;
      }
      ok, key := SecretReplace(key, p.secret);
      if ok {
        haveKey, instantiated, state := true, false, UNINITIALISED;
      }
    }

    method SetIvParam(p: Param) returns (ok: bool)
      requires Valid()
      modifies this`iv, this`haveIv, this`instantiated, this`state
      ensures Valid() && (Abs(), ok) == SetIv(old(Abs()), p)
    {
      hide StandsAt;
      if p.Absent? {
        return true;
      }
      if p.Malformed? || (mode.CtrHbelt? && |p.secret.value| != BLOCK) {
        return false;
      }
      ok, iv := SecretReplace(iv, p.secret);
      if ok {
        haveIv, instantiated, state := true, false, UNINITIALISED;
      }
    }

    method SetCtxParams(params: Params) returns (ok: bool)
      requires Valid()
      modifies this`key, this`haveKey, this`iv, this`haveIv, this`instantiated, this`state
      ensures Valid() && (Abs(), ok) == SetParams(old(Abs()), params)
    {
      ok := SetKeyParam(params.key);
      if ok {
        ok := SetIvParam(params.iv);
      }
    }

    method CleanseBuffers()
      requires Shape()
      modifies this`reserved, s, r, block
      ensures reserved == 0 && s[..] == Zeros(BLOCK)
    {
      reserved := 0;
      forall i | 0 <= i < BLOCK {
        block[i] := 0;
      }
      forall i | 0 <= i < BLOCK {
        s[i] := 0;
      }
      forall i | 0 <= i < BLOCK {
        r[i] := 0;
      }
    }

    method StartCtr(zeroIvCopied: bool) returns (ok: bool)
      requires Fits() && mode.CtrHbelt?
      modifies this, s, r, block
      ensures Valid() && (Abs(), ok) == Restart(old(Abs()), zeroIvCopied)
    {
      hide StandsAt;
      if !haveKey || |key| != BLOCK {
        state := ERROR;
        return false;
      }
      if !haveIv {
        ok, iv := SecretReplace(iv, Secret(Zeros(BLOCK), zeroIvCopied));
        if !ok {
          state := ERROR;
          return;
        }
        haveIv := true;
      }
      PrepareCtr();
      Started();
      return true;
    }

    method StartHmac() returns (ok: bool)
      requires Fits() && mode.HmacHbelt? && s[..] == Zeros(BLOCK)
      modifies this, s, r, block
      ensures Valid() && (Abs(), ok) == Restart(old(Abs()), true) == Restart(old(Abs()), false)
    {
      hide StandsAt;
      if !haveKey {
        state := ERROR;
        return false;
      }
      PrepareHmac();
      Started();
      return true;
    }

    method Started()
      requires Fits() && haveKey && (mode.CtrHbelt? ==> haveIv)
      requires StandsAt(Reader(Seed(mode, key, if haveIv then iv else []), [], 0))
      modifies this`instantiated, this`state, this`reader
      ensures Valid() && Abs() == Ctx(mode, Some(key), if haveIv then Some(iv) else None,
        Ready(Reader(Seed(mode, key, if haveIv then iv else []), [], 0)))
    {
      instantiated, state := true, READY;
      reader := Reader(Seed(mode, key, if haveIv then iv else []), [], 0);
    }

    // Instantiation behind its parameters.
    method StartStream(zeroIvCopied: bool) returns (ok: bool)
      requires Fits()
      modifies this, s, r, block
      ensures Valid() && (Abs(), ok) == Restart(old(Abs()), zeroIvCopied)
    {
      CleanseBuffers();
      if mode.CtrHbelt? {
        ok := StartCtr(zeroIvCopied);
      } else {
        ok := StartHmac();
      }
    }

    method Instantiate(strength: nat, params: Params, zeroIvCopied: bool) returns (ok: bool)
      requires Valid()
      modifies this, s, r, block
      ensures Valid() && (Abs(), ok) == BrngContext.Instantiate(old(Abs()), strength, params, zeroIvCopied)
    {
      if strength > STRENGTH {
        return false;
      }
      ok := SetCtxParams(params);
      if ok {
        ok := StartStream(zeroIvCopied);
      }
    }

    method Uninstantiate()
      requires Valid()
      modifies this, s, r, block
      ensures Valid() && Abs() == BrngContext.Uninstantiate(old(Abs()))
    {
      instantiated, state := false, UNINITIALISED;
      CleanseBuffers();
    }

    method ServeRequest(out: array<byte>, outlen: nat, addin: seq<byte>)
      requires Fits() && StandsAt(reader) && Separate(out) && outlen <= out.Length
      requires mode.HmacHbelt? ==> reader.seed.iv == if haveIv then iv else []
      modifies this`reserved, this`reader, s, r, block, out
      ensures reserved < BLOCK && reader == old(reader).After(outlen, addin) && StandsAt(reader)
      ensures out[..outlen] == old(reader).Read(h, outlen, addin)
      ensures out[outlen..] == old(out[outlen..])
    {
      hide Reader.After, Reader.Read, Pending, AddinBlocks, Trace.Valid, ChainAfter;
      ghost var from, to := reader, reader.After(outlen, addin);
      ghost var pending := Pending(h, from);
      ghost var used := Used(from, addin);
      ghost var t := RunOf(h, from, outlen, addin);
      if mode.CtrHbelt? {
        assert used == addin;
        GenerateCtr(out, outlen, addin, pending, t);
      } else {
        GenerateHmac(out, outlen, pending, t);
      }
      reader := to;
    }

    method Generate(out: array<byte>, outlen: nat, strength: nat, addin: seq<byte>) returns (ok: bool)
      requires Valid() && Separate(out) && outlen <= out.Length
      modifies this`reserved, this`reader, s, r, block, out
      ensures Valid() && Abs() == BrngContext.Generate(old(Abs()), outlen, strength, addin)
      ensures ok == Serves(old(Abs()), outlen, strength)
      ensures ok ==> out[..outlen] == old(reader).Read(h, outlen, addin)
      ensures out[outlen..] == old(out[outlen..]) && (!ok ==> out[..] == old(out[..]))
      ensures ok && mode.CtrHbelt? && old(reader).xs == [] && outlen >= 32 ==>
        out[..32] == h.digest(old(reader).seed.key + old(reader).seed.iv + Padded(addin)
                              + Complement(old(reader).seed.iv))
    {
      hide StandsAt, Reader.After, Reader.Read, Padded;
      if !instantiated || !state.READY? {
        return false;
      }
      if strength > STRENGTH {
        return false;
      }
      if outlen > SIZE_MAX {
        return false;
      }
      ServeRequest(out, outlen, addin);
      if mode.CtrHbelt? && old(reader).xs == [] && outlen >= 32 {
        FirstCtrBlock(h, old(reader), outlen, addin);
        assert out[..32] == out[..outlen][..32];
      }
      return true;
    }

    method ReplaceKey(entropy: Secret) returns (ok: bool)
      requires Valid()
      modifies this`key, this`haveKey
      ensures Valid() && ok == (Skipped(entropy) || Accepts(old(Abs()), entropy))
      ensures Abs() == if ok && !Skipped(entropy) then old(Abs()).(key := Some(entropy.value)) else old(Abs())
    {
      hide StandsAt;
      if |entropy.value| == 0 {
        return true;
      }
      if mode.CtrHbelt? && |entropy.value| != BLOCK {
        return false;
      }
      ok, key := SecretReplace(key, entropy);
      if ok {
        haveKey := true;
      }
    }

    method ReplaceIv(addin: Secret) returns (ok: bool)
      requires Valid()
      modifies this`iv, this`haveIv
      ensures Fits() && (!ok ==> Valid()) && ok == (Skipped(addin) || Accepts(old(Abs()), addin))
      ensures Abs() == if ok && !Skipped(addin) then old(Abs()).(iv := Some(addin.value)) else old(Abs())
    {
      hide StandsAt;
      if |addin.value| == 0 {
        return true;
      }
      if mode.CtrHbelt? && |addin.value| != BLOCK {
        return false;
      }
      ok, iv := SecretReplace(iv, addin);
      if ok {
        haveIv := true;
      }
    }

    method Reseed(entropy: Secret, addin: Secret, zeroIvCopied: bool) returns (ok: bool)
      requires Valid()
      modifies this, s, r, block
      ensures Valid() && (Abs(), ok) == BrngContext.Reseed(old(Abs()), entropy, addin, zeroIvCopied)
    {
      hide StandsAt;
      ok := ReplaceKey(entropy);
      if ok {
        ok := ReplaceIv(addin);
        if ok {
          // Instantiation at full strength without parameters.
          ok := StartStream(zeroIvCopied);
        }
      }
    }

    // The IV parameter as read back: the running counter of the CTR generator, else the stored IV.
    method GetIv() returns (value: seq<byte>)
      requires Valid()
      ensures value == IvParam(h, Abs())
    {
      if mode.CtrHbelt? {
        if instantiated {
          value := s[..];
        } else if haveIv && |iv| == BLOCK {
          value := iv;
        } else {
          value := Zeros(BLOCK);
        }
      } else {
        value := if haveIv then iv else [];
      }
    }
  }
}
