// The BELT block modes (STB 34.101.31) over an unknown block permutation: one block step,
// whole messages at once, and the inverse of each.
module BeltModes {
  import opened Bytes

  const BLOCK: nat := 16

  type Block = b: seq<byte> | |b| == BLOCK witness [0, 0, 0, 0, 0, 0, 0, 0, 0, 0, 0, 0, 0, 0, 0, 0]

  // What Bee2 computes: for each key a permutation of blocks and its inverse, the tweak sequence of
  // the disk mode, and the expansion of a short key to 32 octets.
  datatype BlockCipher = BlockCipher(
    encrypt: (seq<byte>, Block) -> Block,
    decrypt: (seq<byte>, Block) -> Block,
    twist: Block -> Block,
    expandKey: seq<byte> -> seq<byte>)
  {
    ghost predicate Valid() {
      forall key, b :: decrypt(key, encrypt(key, b)) == b
    }
  }

  datatype Mode = ECB | CBC | CFB | CTR | BDE {
    predicate TakesIv() {
      !ECB?
    }

    predicate AcceptsPartialBlock() {
      CFB? || CTR?
    }
  }

  // One direction of one mode under one key.
  datatype Setup = Setup(cipher: BlockCipher, mode: Mode, enc: bool, key: seq<byte>) {
    function Reversed(): Setup {
      this.(enc := !enc)
    }
  }

  function Mix(a: Block, b: Block): (c: Block) {
    XorBytes(a, b)
  }

  // The chain value a mode starts from.
  function StartChain(s: Setup, iv: Block): Block {
    match s.mode
    case ECB => Zeros(BLOCK)
    case CBC => iv
    case CFB => iv
    case CTR => s.cipher.encrypt(s.key, iv)
    case BDE => s.cipher.encrypt(s.key, iv)
  }

  // One block through the mode: the block that comes out, and the chain after it.
  function Crypt(s: Setup, chain: Block, x: Block): (Block, Block) {
    match s.mode
    case ECB => (if s.enc then s.cipher.encrypt(s.key, x) else s.cipher.decrypt(s.key, x), chain)
    case CBC =>
      if s.enc then
        var y := s.cipher.encrypt(s.key, Mix(x, chain));
        (y, y)
      else
        (Mix(s.cipher.decrypt(s.key, x), chain), x)
    case CFB =>
      var y := Mix(x, s.cipher.encrypt(s.key, chain));
      (y, if s.enc then y else x)
    case CTR =>
      var counter := Increment(chain);
      (Mix(x, s.cipher.encrypt(s.key, counter)), counter)
    case BDE =>
      var t := s.cipher.twist(chain);
      (Mix(if s.enc then s.cipher.encrypt(s.key, Mix(x, t)) else s.cipher.decrypt(s.key, Mix(x, t)), t), t)
  }

  // ---------------------------------------------------------------- whole blocks

  lemma FirstBlockOfSum(a: seq<byte>, b: seq<byte>)
    requires |a| >= BLOCK
    ensures (a + b)[..BLOCK] == a[..BLOCK] && (a + b)[BLOCK..] == a[BLOCK..] + b
  {
  }

  lemma PartialOfSum(a: nat, b: nat)
    requires a % BLOCK == 0
    ensures (a + b) % BLOCK == b % BLOCK && (a >= BLOCK ==> (a - BLOCK) % BLOCK == 0)
  {
  }

  function BlocksOut(s: Setup, chain: Block, m: seq<byte>): (out: seq<byte>)
    ensures |out| == |m| - |m| % BLOCK
    decreases |m|
  {
    if |m| < BLOCK then []
    else
      var (y, next) := Crypt(s, chain, m[..BLOCK]);
      y + BlocksOut(s, next, m[BLOCK..])
  }

  function BlocksChain(s: Setup, chain: Block, m: seq<byte>): Block
    decreases |m|
  {
    if |m| < BLOCK then chain
    else BlocksChain(s, Crypt(s, chain, m[..BLOCK]).1, m[BLOCK..])
  }

  lemma {:induction false} BlocksAppend(s: Setup, chain: Block, a: seq<byte>, b: seq<byte>)
    requires |a| % BLOCK == 0
    ensures BlocksOut(s, chain, a + b) == BlocksOut(s, chain, a) + BlocksOut(s, BlocksChain(s, chain, a), b)
    ensures BlocksChain(s, chain, a + b) == BlocksChain(s, BlocksChain(s, chain, a), b)
    decreases |a|
  {
    if a == [] {
      assert a + b == b;
    } else {
      FirstBlockOfSum(a, b);
      BlocksAppend(s, Crypt(s, chain, a[..BLOCK]).1, a[BLOCK..], b);
    }
  }

  // ---------------------------------------------------------------- whole messages

  predicate Accepts(s: Setup, m: seq<byte>) {
    s.mode.AcceptsPartialBlock() || |m| % BLOCK == 0
  }

  // The keystream block of the streaming modes.
  function Keystream(s: Setup, chain: Block): Block
    requires s.mode.AcceptsPartialBlock()
  {
    s.cipher.encrypt(s.key, if s.mode.CTR? then Increment(chain) else chain)
  }

  // The mode as the standard defines it on a message of any accepted length: a last partial block
  // is masked by the front of the keystream.
  function OneShot(s: Setup, chain: Block, m: seq<byte>): (out: seq<byte>)
    requires Accepts(s, m)
    ensures |out| == |m|
    decreases |m|
  {
    if |m| >= BLOCK then
      var (y, next) := Crypt(s, chain, m[..BLOCK]);
      y + OneShot(s, next, m[BLOCK..])
    else if m == [] then []
    else XorBytes(m, Keystream(s, chain)[..|m|])
  }

  // One block is undone by the reversed direction, which also reaches the same chain.
  lemma CryptInverts(s: Setup, chain: Block, x: Block)
    requires s.cipher.Valid() && s.enc
    ensures var (y, next) := Crypt(s, chain, x);
      Crypt(s.Reversed(), chain, y) == (x, next)
  {
    match s.mode
    case ECB =>
    case CBC => XorBytesCancel(x, chain);
    case CFB => XorBytesCancel(x, s.cipher.encrypt(s.key, chain));
    case CTR => XorBytesCancel(x, s.cipher.encrypt(s.key, Increment(chain)));
    case BDE =>
      var t := s.cipher.twist(chain);
      XorBytesCancel(x, t);
      XorBytesCancel(s.cipher.encrypt(s.key, Mix(x, t)), t);
  }

  // Decryption undoes encryption on every accepted message, for every mode.
  lemma {:induction false} OneShotInverts(s: Setup, chain: Block, m: seq<byte>)
    requires s.cipher.Valid() && s.enc && Accepts(s, m)
    ensures OneShot(s.Reversed(), chain, OneShot(s, chain, m)) == m
    decreases |m|
  {
    if |m| >= BLOCK {
      var (y, next) := Crypt(s, chain, m[..BLOCK]);
      var rest := OneShot(s, next, m[BLOCK..]);
      CryptInverts(s, chain, m[..BLOCK]);
      OneShotInverts(s, next, m[BLOCK..]);
      assert (y + rest)[..BLOCK] == y && (y + rest)[BLOCK..] == rest;
    } else if m != [] {
      XorBytesCancel(m, Keystream(s, chain)[..|m|]);
    }
  }

  // The last block padded with zeros, put through the mode and cut back: the code's way to a
  // partial block is the standard's.
  lemma PaddedBlockIsPartialBlock(s: Setup, chain: Block, m: seq<byte>)
    requires s.mode.AcceptsPartialBlock() && 0 < |m| <= BLOCK
    ensures Crypt(s, chain, ZeroPad(m, BLOCK)).0[..|m|] == OneShot(s, chain, m)
  {
    if |m| == BLOCK {
      assert ZeroPad(m, BLOCK) == m && m[..BLOCK] == m;
      assert OneShot(s, Crypt(s, chain, m).1, m[BLOCK..]) == [];
    }
  }

  lemma {:induction false} OneShotOfBlocks(s: Setup, chain: Block, a: seq<byte>, b: seq<byte>)
    requires |a| % BLOCK == 0 && Accepts(s, b)
    ensures Accepts(s, a + b)
    ensures OneShot(s, chain, a + b) == BlocksOut(s, chain, a) + OneShot(s, BlocksChain(s, chain, a), b)
    decreases |a|
  {
    PartialOfSum(|a|, |b|);
    if a == [] {
      assert a + b == b;
    } else {
      var (y, next) := Crypt(s, chain, a[..BLOCK]);
      FirstBlockOfSum(a, b);
      OneShotOfBlocks(s, next, a[BLOCK..], b);
      AppendAssociates(y, BlocksOut(s, next, a[BLOCK..]), OneShot(s, BlocksChain(s, next, a[BLOCK..]), b));
    }
  }

  // CTR by position: octet j of block b, which is octet k of all, is masked by octet j of the permuted
  // counter number n = b + 1.
  lemma {:induction false} CtrByPosition(s: Setup, chain: Block, m: seq<byte>, b: nat, j: nat, k: nat, n: nat)
    requires s.mode.CTR? && j < BLOCK && k == BLOCK * b + j < |m| && n == b + 1
    ensures OneShot(s, chain, m)[k] == Xor(m[k], s.cipher.encrypt(s.key, CounterAt(chain, n))[j])
    decreases b
  {
    hide OneShot, CounterAt, Increment, Xor;
    var next := Increment(chain);
    if b == 0 {
      FirstCounter(chain, n);
      FirstOctets(s, chain, m, k);
    } else {
      var tail, i := m[BLOCK..], k - BLOCK;
      CtrByPosition(s, next, tail, b - 1, j, i, b);
      CounterShift(chain, b, n);
      LaterOctets(s, chain, m, k, i);
      assert tail[i] == m[k];
    }
  }

  lemma FirstCounter(c: seq<byte>, n: nat)
    requires n == 1
    ensures CounterAt(c, n) == Increment(c)
  {
    assert CounterAt(c, 0) == c;
    hide Increment;
  }

  lemma CtrWhole(s: Setup, chain: Block, m: seq<byte>)
    requires s.mode.CTR? && |m| >= BLOCK
    ensures var next := Increment(chain);
      OneShot(s, chain, m) == Mix(m[..BLOCK], s.cipher.encrypt(s.key, next)) + OneShot(s, next, m[BLOCK..])
  {
    hide Increment, Mix;
  }

  lemma FirstOctets(s: Setup, chain: Block, m: seq<byte>, j: nat)
    requires s.mode.CTR? && j < BLOCK && j < |m|
    ensures OneShot(s, chain, m)[j] == Xor(m[j], s.cipher.encrypt(s.key, Increment(chain))[j])
  {
    hide Increment, Xor;
    if |m| >= BLOCK {
      CtrWhole(s, chain, m);
    }
  }

  lemma LaterOctets(s: Setup, chain: Block, m: seq<byte>, k: nat, i: nat)
    requires s.mode.CTR? && BLOCK <= k < |m| && i == k - BLOCK
    ensures OneShot(s, chain, m)[k] == OneShot(s, Increment(chain), m[BLOCK..])[i]
  {
    CtrWhole(s, chain, m);
    hide OneShot, Increment, Mix;
  }

  lemma {:induction false} CounterShift(c: seq<byte>, n: nat, m: nat)
    requires m == n + 1
    ensures CounterAt(Increment(c), n) == CounterAt(c, m)
    decreases n
  {
    hide Increment;
    if n > 0 {
      CounterShift(c, n - 1, n);
    }
  }

  function Part(m: seq<byte>, b: nat): Block
    requires BLOCK * b + BLOCK <= |m|
  {
    m[BLOCK * b..BLOCK * b + BLOCK]
  }

  // The block of the output before block b, or what the chain started from.
  function Before(chain: Block, out: seq<byte>, b: nat): Block
    requires BLOCK * b <= |out|
  {
    if b == 0 then chain else Part(out, b - 1)
  }

  lemma PartShift(y: Block, rest: seq<byte>, b: nat, c: nat)
    requires BLOCK * b + BLOCK <= |rest| && c == b + 1
    ensures Part(y + rest, c) == Part(rest, b)
  {
    assert (y + rest)[BLOCK..] == rest;
  }

  // What a block encrypts to, given the ciphertext block before it.
  function Encrypted(s: Setup, x: Block, prev: Block): Block
    requires s.mode.ECB? || s.mode.CBC? || s.mode.CFB?
  {
    if s.mode.ECB? then s.cipher.encrypt(s.key, x)
    else if s.mode.CBC? then s.cipher.encrypt(s.key, Mix(x, prev))
    else Mix(x, s.cipher.encrypt(s.key, prev))
  }

  // ECB, CBC and CFB by position.
  lemma {:induction false} EncryptByBlock(s: Setup, chain: Block, m: seq<byte>, b: nat)
    requires s.enc && (s.mode.ECB? || s.mode.CBC? || s.mode.CFB?) && Accepts(s, m) && BLOCK * b + BLOCK <= |m|
    ensures var out := OneShot(s, chain, m);
      Part(out, b) == Encrypted(s, Part(m, b), Before(chain, out, b))
    decreases b
  {
    var x, tail := m[..BLOCK], m[BLOCK..];
    assert m == x + tail;
    var (y, next) := Crypt(s, chain, x);
    var rest := OneShot(s, next, tail);
    FirstEncrypted(s, chain, m);
    FirstPart(x, tail);
    FirstPart(y, rest);
    assert Before(chain, y + rest, 0) == chain;
    hide Crypt, Encrypted, Part, OneShot, Before, Accepts;
    if b > 0 {
      var i := b - 1;
      assert BLOCK * i + BLOCK <= |tail| == |rest|;
      EncryptByBlock(s, next, tail, i);
      PartShift(x, tail, i, b);
      PartShift(y, rest, i, b);
      BeforeShift(s, chain, x, rest, i, b);
      SameEncrypted(s, Part(m, b), Before(chain, y + rest, b), Before(next, rest, i));
    }
  }

  // In CFB the chain behind whole blocks is the last block of ciphertext.
  lemma {:induction false} CfbChain(s: Setup, chain: Block, a: seq<byte>, b: nat)
    requires s.enc && s.mode.CFB? && |a| == BLOCK * b
    ensures BlocksChain(s, chain, a) == Before(chain, BlocksOut(s, chain, a), b)
    decreases b
  {
    assert Before(chain, [], 0) == chain;
    hide Crypt, Before;
    if b > 0 {
      var x, tail := a[..BLOCK], a[BLOCK..];
      var (y, next) := Crypt(s, chain, x);
      CfbChain(s, next, tail, b - 1);
      BeforeShift(s, chain, x, BlocksOut(s, next, tail), b - 1, b);
    }
  }

  // The last partial block of CFB is masked with the permuted ciphertext block before it.
  lemma CfbTail(s: Setup, chain: Block, m: seq<byte>, b: nat)
    requires s.enc && s.mode.CFB? && BLOCK * b < |m| < BLOCK * b + BLOCK
    ensures var out := OneShot(s, chain, m);
      out[BLOCK * b..]
      == XorBytes(m[BLOCK * b..], s.cipher.encrypt(s.key, Before(chain, out, b))[..|m| - BLOCK * b])
  {
    var a, tail := m[..BLOCK * b], m[BLOCK * b..];
    assert m == a + tail;
    OneShotOfBlocks(s, chain, a, tail);
    CfbChain(s, chain, a, b);
    var whole, rest := BlocksOut(s, chain, a), OneShot(s, BlocksChain(s, chain, a), tail);
    assert (whole + rest)[BLOCK * b..] == rest;
    assert Before(chain, whole + rest, b) == Before(chain, whole, b);
  }

  // ---------------------------------------------------------------- BDE by position

  // The tweak after n blocks.
  function Twisted(c: BlockCipher, t: Block, n: nat): Block {
    if n == 0 then t else c.twist(Twisted(c, t, n - 1))
  }

  lemma {:induction false} TwistShift(c: BlockCipher, t: Block, n: nat, m: nat)
    requires m == n + 1
    ensures Twisted(c, c.twist(t), n) == Twisted(c, t, m)
    decreases n
  {
    if n > 0 {
      TwistShift(c, t, n - 1, n);
    }
  }

  lemma {:induction false} BdeByBlock(s: Setup, chain: Block, m: seq<byte>, b: nat, n: nat)
    requires s.enc && s.mode.BDE? && Accepts(s, m) && BLOCK * b + BLOCK <= |m| && n == b + 1
    ensures var t := Twisted(s.cipher, chain, n);
      Part(OneShot(s, chain, m), b) == Mix(s.cipher.encrypt(s.key, Mix(Part(m, b), t)), t)
    decreases b
  {
    var x, tail := m[..BLOCK], m[BLOCK..];
    assert m == x + tail;
    PartialOfSum(BLOCK, |tail|);
    var (y, next) := Crypt(s, chain, x);
    var rest := OneShot(s, next, tail);
    assert next == s.cipher.twist(chain) && y == Mix(s.cipher.encrypt(s.key, Mix(x, next)), next);
    hide Crypt, Part, Mix, Accepts;
    if b == 0 {
      assert Twisted(s.cipher, chain, n) == next;
      FirstPart(x, tail);
      FirstPart(y, rest);
    } else {
      BdeByBlock(s, next, tail, b - 1, b);
      TwistShift(s.cipher, chain, b, n);
      PartShift(x, tail, b - 1, b);
      PartShift(y, rest, b - 1, b);
    }
  }

  lemma SameEncrypted(s: Setup, x: Block, prev: Block, prev': Block)
    requires s.mode.ECB? || s.mode.CBC? || s.mode.CFB?
    requires s.mode.ECB? || prev == prev'
    ensures Encrypted(s, x, prev) == Encrypted(s, x, prev')
  {
  }

  lemma FirstEncrypted(s: Setup, chain: Block, m: seq<byte>)
    requires s.enc && (s.mode.ECB? || s.mode.CBC? || s.mode.CFB?) && Accepts(s, m) && BLOCK <= |m|
    ensures var (y, next) := Crypt(s, chain, m[..BLOCK]);
      && y == Encrypted(s, m[..BLOCK], chain)
      && Accepts(s, m[BLOCK..]) && OneShot(s, chain, m) == y + OneShot(s, next, m[BLOCK..])
  {
    PartialOfSum(BLOCK, |m| - BLOCK);
  }

  lemma FirstPart(x: Block, rest: seq<byte>)
    ensures Part(x + rest, 0) == x
  {
  }

  lemma BeforeShift(s: Setup, chain: Block, x: Block, rest: seq<byte>, b: nat, c: nat)
    requires s.enc && (s.mode.ECB? || s.mode.CBC? || s.mode.CFB?) && BLOCK * b <= |rest| && c == b + 1
    ensures var (y, next) := Crypt(s, chain, x);
      s.mode.ECB? || Before(chain, y + rest, c) == Before(next, rest, b)
  {
    var (y, next) := Crypt(s, chain, x);
    if b == 0 {
      FirstPart(y, rest);
    } else {
      PartShift(y, rest, b - 1, b);
    }
  }
}
