// What encrypting a message in any pieces puts out in each BELT mode, octet by octet from the key, the IV
// and the message (section 7 of STB 34.101.31).
module BeltByPosition {
  import opened Bytes
  import opened BeltModes
  import opened BeltStream

  lemma MessageIsOneShot(s: Setup, iv: Block, pieces: seq<seq<byte>>)
    requires s.mode == CFB || s.mode == CTR || |Concat(pieces)| % 16 == 0
    ensures Accepts(s, Concat(pieces))
    ensures Message(s, iv, pieces) == OneShot(s, StartChain(s, iv), Concat(pieces))
  {
    StreamingIsOneShot(s, iv, pieces, BLOCK);
  }

  // ECB: each block is permuted by itself.
  lemma EcbMessage(s: Setup, iv: Block, pieces: seq<seq<byte>>, b: nat)
    requires s.enc && s.mode == ECB && |Concat(pieces)| % 16 == 0 && 16 * b + 16 <= |Concat(pieces)|
    ensures var m, out := Concat(pieces), Message(s, iv, pieces);
      && |out| == |m|
      && out[16 * b..16 * b + 16] == s.cipher.encrypt(s.key, m[16 * b..16 * b + 16])
  {
    hide OneShot, Message, Accepts;
    MessageIsOneShot(s, iv, pieces);
    EncryptByBlock(s, StartChain(s, iv), Concat(pieces), b);
  }

  // CBC: each block is combined with the block of ciphertext before it, the first one with the IV, and
  // permuted.
  lemma CbcMessage(s: Setup, iv: Block, pieces: seq<seq<byte>>, b: nat)
    requires s.enc && s.mode == CBC && |Concat(pieces)| % 16 == 0 && 16 * b + 16 <= |Concat(pieces)|
    ensures var m, out := Concat(pieces), Message(s, iv, pieces);
      && |out| == |m|
      && var prev := if b == 0 then iv else out[16 * b - 16..16 * b];
        out[16 * b..16 * b + 16] == s.cipher.encrypt(s.key, XorBytes(m[16 * b..16 * b + 16], prev))
  {
    hide OneShot, Message, Accepts;
    MessageIsOneShot(s, iv, pieces);
    EncryptByBlock(s, iv, Concat(pieces), b);
  }

  // CFB: each block, the last one of any length, is masked with the permuted block of ciphertext before
  // it, the first one with the permuted IV.
  lemma CfbMessage(s: Setup, iv: Block, pieces: seq<seq<byte>>, b: nat, end: nat)
    requires s.enc && s.mode == CFB && 16 * b < |Concat(pieces)| && end == Min(16 * b + 16, |Concat(pieces)|)
    ensures var m, out := Concat(pieces), Message(s, iv, pieces);
      && |out| == |m|
      && var prev := if b == 0 then iv else out[16 * b - 16..16 * b];
        out[16 * b..end] == XorBytes(m[16 * b..end], s.cipher.encrypt(s.key, prev)[..end - 16 * b])
  {
    hide OneShot, Message, Accepts;
    MessageIsOneShot(s, iv, pieces);
    var m := Concat(pieces);
    if end == 16 * b + 16 {
      CfbWholeBlock(s, iv, m, b, end);
    } else {
      CfbLastBlock(s, iv, m, b, end);
    }
  }

  lemma CfbWholeBlock(s: Setup, iv: Block, m: seq<byte>, b: nat, end: nat)
    requires s.enc && s.mode == CFB && end == 16 * b + 16 <= |m| && Accepts(s, m)
    ensures var out := OneShot(s, iv, m);
      var prev := if b == 0 then iv else out[16 * b - 16..16 * b];
      out[16 * b..end] == XorBytes(m[16 * b..end], s.cipher.encrypt(s.key, prev)[..end - 16 * b])
  {
    hide OneShot, Accepts;
    EncryptByBlock(s, iv, m, b);
    WholeBlock(s.cipher.encrypt(s.key, Before(iv, OneShot(s, iv, m), b)));
  }

  lemma WholeBlock(x: Block)
    ensures x[..16] == x
  {
  }

  lemma CfbLastBlock(s: Setup, iv: Block, m: seq<byte>, b: nat, end: nat)
    requires s.enc && s.mode == CFB && 16 * b < |m| == end < 16 * b + 16 && Accepts(s, m)
    ensures var out := OneShot(s, iv, m);
      var prev := if b == 0 then iv else out[16 * b - 16..16 * b];
      out[16 * b..end] == XorBytes(m[16 * b..end], s.cipher.encrypt(s.key, prev)[..end - 16 * b])
  {
    hide OneShot, Accepts;
    CfbTail(s, iv, m, b);
    var out := OneShot(s, iv, m);
    assert out[16 * b..end] == out[BLOCK * b..] && m[16 * b..end] == m[BLOCK * b..];
  }

  // CTR: octet k is masked with octet k % 16 of the permuted counter, which counts from the permuted IV
  // and is k / 16 + 1 for it.
  lemma CtrMessage(s: Setup, iv: Block, pieces: seq<seq<byte>>, k: nat)
    requires s.enc && s.mode == CTR && k < |Concat(pieces)|
    ensures var m, out := Concat(pieces), Message(s, iv, pieces);
      && |out| == |m|
      && out[k] == Xor(m[k], s.cipher.encrypt(s.key, CounterAt(s.cipher.encrypt(s.key, iv), k / 16 + 1))[k % 16])
  {
    hide OneShot, Message, Accepts, Xor, CounterAt;
    MessageIsOneShot(s, iv, pieces);
    CtrByPosition(s, s.cipher.encrypt(s.key, iv), Concat(pieces), k / 16, k % 16, k, k / 16 + 1);
  }

  // BDE: each block is permuted between two combinations with its tweak; the tweaks follow the permuted
  // IV.
  lemma BdeMessage(s: Setup, iv: Block, pieces: seq<seq<byte>>, b: nat)
    requires s.enc && s.mode == BDE && |Concat(pieces)| % 16 == 0 && 16 * b + 16 <= |Concat(pieces)|
    ensures var m, out := Concat(pieces), Message(s, iv, pieces);
      && |out| == |m|
      && var t := Twisted(s.cipher, s.cipher.encrypt(s.key, iv), b + 1);
        out[16 * b..16 * b + 16] == XorBytes(s.cipher.encrypt(s.key, XorBytes(m[16 * b..16 * b + 16], t)), t)
  {
    hide OneShot, Message, Accepts;
    MessageIsOneShot(s, iv, pieces);
    BdeByBlock(s, s.cipher.encrypt(s.key, iv), Concat(pieces), b, b + 1);
  }
}
