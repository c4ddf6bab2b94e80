// The BRNG generators as mathematics: the output stream that a key, an IV and a sequence of
// additional inputs determine (sections 6.2 and 6.3 of STB 34.101.47), and the life cycle of a
// generator context as a state machine over values.
module BrngModel {
  import opened Bytes
  import opened Hashing
  import opened Options

  const BLOCK: nat := 32
  const STRENGTH: nat := 256

  datatype Mode = CtrHbelt | HmacHbelt

  // ---------------------------------------------------------------- the output stream

  // What a successful instantiation fixes.
  datatype Seed = Seed(mode: Mode, key: seq<byte>, iv: seq<byte>) {
    predicate Valid() {
      mode.CtrHbelt? ==> |iv| == BLOCK
    }
  }

  // The counter s and the chaining value r.
  datatype Chain = Chain(s: seq<byte>, r: seq<byte>) {
    predicate Valid() {
      |s| == BLOCK && |r| == BLOCK
    }
  }

  ghost predicate BeltHash(h: HashAlg) {
    h.Valid() && h.digestSize == BLOCK && h.blockSize == BLOCK
  }

  function Start(h: HashAlg, seed: Seed): (c: Chain)
    requires BeltHash(h) && seed.Valid()
    ensures c.Valid()
  {
    match seed.mode
    case CtrHbelt => Chain(seed.iv, Complement(seed.iv))
    case HmacHbelt => Chain(Zeros(BLOCK), Hmac(h, seed.key, seed.iv))
  }

  // The block made in state c from the additional input x; the HMAC generator takes none.
  function BlockAt(h: HashAlg, seed: Seed, c: Chain, x: seq<byte>): (y: seq<byte>)
    requires BeltHash(h)
    ensures |y| == BLOCK
  {
    match seed.mode
    case CtrHbelt => h.digest(seed.key + c.s + x + c.r)
    case HmacHbelt => Hmac(h, seed.key, c.r + seed.iv)
  }

  function Advance(h: HashAlg, seed: Seed, c: Chain, x: seq<byte>): (d: Chain)
    requires BeltHash(h) && c.Valid()
    ensures d.Valid()
  {
    match seed.mode
    case CtrHbelt => Chain(Increment(c.s), XorBytes(c.r, BlockAt(h, seed, c, x)))
    case HmacHbelt => Chain(c.s, Hmac(h, seed.key, c.r))
  }

  function ChainAfter(h: HashAlg, seed: Seed, xs: seq<seq<byte>>): (c: Chain)
    requires BeltHash(h) && seed.Valid()
    ensures c.Valid()
  {
    if xs == [] then Start(h, seed)
    else Advance(h, seed, ChainAfter(h, seed, xs[..|xs| - 1]), xs[|xs| - 1])
  }

  // All blocks made from the additional inputs xs, one after the other.
  function Output(h: HashAlg, seed: Seed, xs: seq<seq<byte>>): (y: seq<byte>)
    requires BeltHash(h) && seed.Valid()
    ensures |y| == BLOCK * |xs|
  {
    if xs == [] then []
    else
      var before := xs[..|xs| - 1];
      Output(h, seed, before) + BlockAt(h, seed, ChainAfter(h, seed, before), xs[|xs| - 1])
  }

  lemma OutputSnoc(h: HashAlg, seed: Seed, xs: seq<seq<byte>>, x: seq<byte>)
    requires BeltHash(h) && seed.Valid()
    ensures Output(h, seed, xs + [x]) == Output(h, seed, xs) + BlockAt(h, seed, ChainAfter(h, seed, xs), x)
    ensures ChainAfter(h, seed, xs + [x]) == Advance(h, seed, ChainAfter(h, seed, xs), x)
  {
    assert (xs + [x])[..|xs|] == xs;
  }

  // What was output stays: further blocks only extend it.
  lemma {:induction false} OutputExtends(h: HashAlg, seed: Seed, xs: seq<seq<byte>>, ys: seq<seq<byte>>)
    requires BeltHash(h) && seed.Valid()
    ensures Output(h, seed, xs) <= Output(h, seed, xs + ys)
  {
    if ys == [] {
      assert xs + ys == xs;
    } else {
      var before := ys[..|ys| - 1];
      var all := xs + before;
      assert xs + ys == all + [ys[|ys| - 1]];
      OutputSnoc(h, seed, all, ys[|ys| - 1]);
      assert Output(h, seed, all) <= Output(h, seed, xs + ys);
      OutputExtends(h, seed, xs, before);
    }
  }

  // ---------------------------------------------------------------- the chain in closed form

  // All blocks of y, of the given count, xored onto r.
  function FoldXor(r: seq<byte>, y: seq<byte>, blocks: nat): (z: seq<byte>)
    requires |r| == BLOCK && |y| == BLOCK * blocks
    ensures |z| == BLOCK
  {
    if blocks == 0 then r
    else XorBytes(FoldXor(r, y[..BLOCK * (blocks - 1)], blocks - 1), y[BLOCK * (blocks - 1)..])
  }

  // After n blocks the counter is the IV incremented n times.
  lemma {:induction false} CounterAfter(h: HashAlg, seed: Seed, xs: seq<seq<byte>>)
    requires BeltHash(h) && seed.Valid() && seed.mode.CtrHbelt?
    ensures ChainAfter(h, seed, xs).s == CounterAt(seed.iv, |xs|)
  {
    if xs != [] {
      CounterAfter(h, seed, xs[..|xs| - 1]);
    }
  }

  // After n blocks r is the complemented IV xored with all n blocks.
  lemma {:induction false} ChainingValueAfter(h: HashAlg, seed: Seed, xs: seq<seq<byte>>)
    requires BeltHash(h) && seed.Valid() && seed.mode.CtrHbelt?
    ensures ChainAfter(h, seed, xs).r == FoldXor(Complement(seed.iv), Output(h, seed, xs), |xs|)
  {
    var n := |xs|;
    if n > 0 {
      var before := xs[..n - 1];
      ChainingValueAfter(h, seed, before);
      var y := Output(h, seed, xs);
      assert y[..BLOCK * (n - 1)] == Output(h, seed, before);
      assert y[BLOCK * (n - 1)..] == BlockAt(h, seed, ChainAfter(h, seed, before), xs[n - 1]);
    }
  }

  // ---------------------------------------------------------------- the blocks in closed form

  // A block is what the blocks before it are followed by, whatever comes behind it.
  lemma BlockStands(h: HashAlg, seed: Seed, xs: seq<seq<byte>>, i: nat)
    requires BeltHash(h) && seed.Valid() && i < |xs|
    ensures var y := Output(h, seed, xs);
      && y[..BLOCK * i] == Output(h, seed, xs[..i])
      && y[BLOCK * i..BLOCK * i + BLOCK] == BlockAt(h, seed, ChainAfter(h, seed, xs[..i]), xs[i])
  {
    hide BlockAt, ChainAfter, Output;
    var before, upTo := xs[..i], xs[..i] + [xs[i]];
    assert xs == upTo + xs[i + 1..];
    OutputExtends(h, seed, upTo, xs[i + 1..]);
    OutputSnoc(h, seed, before, xs[i]);
    BlockOfSum(Output(h, seed, xs), Output(h, seed, before), BlockAt(h, seed, ChainAfter(h, seed, before), xs[i]),
               BLOCK * i);
  }

  lemma BlockOfSum(all: seq<byte>, before: seq<byte>, block: seq<byte>, n: nat)
    requires before + block <= all && n == |before| && |block| == BLOCK
    ensures all[..n] == before && all[n..n + BLOCK] == block
  {
    var upTo := before + block;
    assert upTo == all[..|upTo|] && all[..n] == upTo[..n] && all[n..n + BLOCK] == upTo[n..n + BLOCK];
  }

  // The digest of the key, the IV incremented i times, a slice of the additional input, and the
  // complemented IV xored with the i blocks before (section 6.2 of STB 34.101.47).
  function CtrBlock(h: HashAlg, key: seq<byte>, iv: seq<byte>, i: nat, x: seq<byte>, before: seq<byte>): seq<byte>
    requires |iv| == 32 && |before| == 32 * i
  {
    h.digest(key + CounterAt(iv, i) + x + FoldXor(Complement(iv), before, i))
  }

  // Block i of the CTR generator is such a digest.
  lemma CtrBlocks(h: HashAlg, seed: Seed, xs: seq<seq<byte>>, i: nat)
    requires BeltHash(h) && seed.Valid() && seed.mode.CtrHbelt? && i < |xs|
    ensures var y := Output(h, seed, xs);
      y[32 * i..32 * i + 32] == CtrBlock(h, seed.key, seed.iv, i, xs[i], y[..32 * i])
  {
    BlockStands(h, seed, xs, i);
    CounterAfter(h, seed, xs[..i]);
    ChainingValueAfter(h, seed, xs[..i]);
  }

  // The values r of the HMAC generator: the HMAC of the IV, and then each time that of the one before,
  // by the pads of the key.
  function HmacChain(h: HashAlg, inner: seq<byte>, outer: seq<byte>, iv: seq<byte>, n: nat): seq<byte> {
    h.digest(outer + h.digest(inner + if n == 0 then iv else HmacChain(h, inner, outer, iv, n - 1)))
  }

  lemma {:induction false} HmacChainAfter(h: HashAlg, seed: Seed, xs: seq<seq<byte>>, inner: seq<byte>,
      outer: seq<byte>)
    requires BeltHash(h) && seed.Valid() && seed.mode.HmacHbelt?
    requires Pad(h, seed.key, 0x36, inner) && Pad(h, seed.key, 0x5C, outer)
    ensures ChainAfter(h, seed, xs).r == HmacChain(h, inner, outer, seed.iv, |xs|)
    decreases |xs|
  {
    hide Hmac, Pad;
    if xs == [] {
      HmacIsRfc2104(h, seed.key, seed.iv, inner, outer);
    } else {
      HmacChainAfter(h, seed, xs[..|xs| - 1], inner, outer);
      HmacIsRfc2104(h, seed.key, ChainAfter(h, seed, xs[..|xs| - 1]).r, inner, outer);
    }
  }

  // Block i of the HMAC generator is the HMAC of the i-th of these values and the IV; additional input
  // has no part in it (section 6.3 of STB 34.101.47).
  lemma HmacBlocks(h: HashAlg, seed: Seed, xs: seq<seq<byte>>, i: nat, inner: seq<byte>, outer: seq<byte>)
    requires BeltHash(h) && seed.Valid() && seed.mode.HmacHbelt? && i < |xs|
    requires Pad(h, seed.key, 0x36, inner) && Pad(h, seed.key, 0x5C, outer)
    ensures Output(h, seed, xs)[32 * i..32 * i + 32]
      == h.digest(outer + h.digest(inner + (HmacChain(h, inner, outer, seed.iv, i) + seed.iv)))
  {
    hide Hmac, Pad, HmacChain;
    BlockStands(h, seed, xs, i);
    HmacChainAfter(h, seed, xs[..i], inner, outer);
    HmacIsRfc2104(h, seed.key, HmacChain(h, inner, outer, seed.iv, i) + seed.iv, inner, outer);
  }

  // ---------------------------------------------------------------- additional input

  function BlockCount(n: nat): nat {
    (n + BLOCK - 1) / BLOCK
  }

  // The i-th 32-octet slice of the additional input, cut at the number of fresh octets and
  // padded with zeros.
  function AddinBlock(addin: seq<byte>, need: nat, i: nat): (x: seq<byte>)
    ensures |x| == BLOCK
  {
    var live := addin[..Min(|addin|, need)];
    ZeroPad(live[Min(BLOCK * i, |live|)..Min(BLOCK * i + BLOCK, |live|)], BLOCK)
  }

  function AddinBlocks(addin: seq<byte>, need: nat): (xs: seq<seq<byte>>)
    ensures |xs| == BlockCount(need)
    ensures forall i {:trigger AddinBlock(addin, need, i)} :: 0 <= i < |xs| ==> xs[i] == AddinBlock(addin, need, i)
  {
    FirstAddinBlocks(addin, need, BlockCount(need))
  }

  function FirstAddinBlocks(addin: seq<byte>, need: nat, n: nat): (xs: seq<seq<byte>>)
    ensures |xs| == n
    ensures forall i {:trigger AddinBlock(addin, need, i)} :: 0 <= i < n ==> xs[i] == AddinBlock(addin, need, i)
  {
    if n == 0 then [] else FirstAddinBlocks(addin, need, n - 1) + [AddinBlock(addin, need, n - 1)]
  }

  // Octets of the additional input past the fresh octets do not matter.
  lemma AddinIsCut(addin: seq<byte>, more: seq<byte>, need: nat)
    requires |addin| >= need
    ensures AddinBlocks(addin + more, need) == AddinBlocks(addin, need)
  {
    assert (addin + more)[..need] == addin[..need];
    forall i | 0 <= i < BlockCount(need)
      ensures AddinBlocks(addin + more, need)[i] == AddinBlocks(addin, need)[i]
    {
      assert AddinBlock(addin + more, need, i) == AddinBlock(addin, need, i);
    }
  }

  // Zeros appended to the additional input do not matter.
  lemma AddinIgnoresTrailingZeros(addin: seq<byte>, n: nat, need: nat)
    ensures AddinBlocks(addin + Zeros(n), need) == AddinBlocks(addin, need)
  {
    hide AddinBlock, AddinBlocks;
    forall i | 0 <= i < BlockCount(need)
      ensures AddinBlocks(addin + Zeros(n), need)[i] == AddinBlocks(addin, need)[i]
    {
      AddinBlockOctets(addin, need, i);
      AddinBlockOctets(addin + Zeros(n), need, i);
      assert AddinBlock(addin + Zeros(n), need, i) == AddinBlock(addin, need, i);
    }
  }

  lemma AddinBlockOctets(addin: seq<byte>, need: nat, i: nat)
    ensures forall j :: 0 <= j < BLOCK ==>
      AddinBlock(addin, need, i)[j] ==
      if BLOCK * i + j < Min(|addin|, need) then addin[BLOCK * i + j] else 0
  {
  }
}
