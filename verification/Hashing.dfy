// Hash functions, their streaming states, and HMAC (section 2 of RFC 2104).
//
// Bee2 computes the digests; here a hash is an unknown function of the octets absorbed
// so far, with digests of one fixed length. A streaming state is a value, so copying it
// forks the computation.
module Hashing {
  import opened Bytes

  datatype HashAlg = HashAlg(digest: seq<byte> -> seq<byte>, digestSize: nat, blockSize: nat) {
    ghost predicate Valid() {
      && 0 < digestSize <= blockSize
      && forall m :: |digest(m)| == digestSize
    }
  }

  datatype HashState = HashState(absorbed: seq<byte>) {
    function Update(input: seq<byte>): HashState {
      HashState(absorbed + input)
    }
  }

  const HASH_START := HashState([])

  const IPAD: byte := 0x36
  const OPAD: byte := 0x5C

  // The key padded with zeros to a block, or its digest so padded when it exceeds a block.
  function KeyBlock(h: HashAlg, key: seq<byte>): (b: seq<byte>)
    requires h.Valid()
    ensures |b| == h.blockSize
  {
    ZeroPad(if |key| > h.blockSize then h.digest(key) else key, h.blockSize)
  }

  function Masked(b: seq<byte>, mask: byte): (r: seq<byte>)
    ensures |r| == |b|
    ensures forall i :: 0 <= i < |b| ==> r[i] == Xor(b[i], mask)
  {
    seq(|b|, i requires 0 <= i < |b| => Xor(b[i], mask))
  }

  function Hmac(h: HashAlg, key: seq<byte>, message: seq<byte>): (mac: seq<byte>)
    requires h.Valid()
    ensures |mac| == h.digestSize
  {
    var block := KeyBlock(h, key);
    h.digest(Masked(block, OPAD) + h.digest(Masked(block, IPAD) + message))
  }

  // Section 2 of RFC 2104, octet by octet: the pad of a key is a block in which each octet of the key,
  // or of the digest of a key above a block, and each zero behind it is combined with the mask.
  ghost predicate Pad(h: HashAlg, key: seq<byte>, mask: byte, pad: seq<byte>)
    requires h.Valid()
  {
    var k := if |key| <= h.blockSize then key else h.digest(key);
    && |pad| == h.blockSize
    && forall j :: 0 <= j < h.blockSize ==> pad[j] == Xor(if j < |k| then k[j] else 0, mask)
  }

  // The inner pad is masked with 0x36 and the outer one with 0x5C.
  lemma HmacIsRfc2104(h: HashAlg, key: seq<byte>, message: seq<byte>, inner: seq<byte>, outer: seq<byte>)
    requires h.Valid() && Pad(h, key, 0x36, inner) && Pad(h, key, 0x5C, outer)
    ensures Hmac(h, key, message) == h.digest(outer + h.digest(inner + message))
  {
    PadIsMasked(h, key, 0x36, inner);
    PadIsMasked(h, key, 0x5C, outer);
  }

  lemma PadIsMasked(h: HashAlg, key: seq<byte>, mask: byte, pad: seq<byte>)
    requires h.Valid()
    ensures Pad(h, key, mask, pad) <==> pad == Masked(KeyBlock(h, key), mask)
  {
    hide Xor;
    if Pad(h, key, mask, pad) {
      SameOctets(pad, Masked(KeyBlock(h, key), mask));
    }
  }

  // A key longer than a block behaves as its digest.
  lemma LongKeyActsAsItsDigest(h: HashAlg, key: seq<byte>, message: seq<byte>)
    requires h.Valid() && |key| > h.blockSize
    ensures Hmac(h, key, message) == Hmac(h, h.digest(key), message)
  {
    assert KeyBlock(h, key) == KeyBlock(h, h.digest(key));
  }

  // Trailing zeros of a key that fits a block do not matter.
  lemma ShortKeyIgnoresZeroPadding(h: HashAlg, key: seq<byte>, n: nat, message: seq<byte>)
    requires h.Valid() && |key| + n <= h.blockSize
    ensures Hmac(h, key + Zeros(n), message) == Hmac(h, key, message)
  {
    assert KeyBlock(h, key + Zeros(n)) == KeyBlock(h, key);
  }

  // The key block: the key, or its digest when it exceeds a block, in a buffer of zeros.
  method FillKeyBlock(h: HashAlg, key: seq<byte>) returns (keyBlock: array<byte>)
    requires h.Valid()
    ensures fresh(keyBlock) && keyBlock[..] == KeyBlock(h, key)
  {
    keyBlock := new byte[h.blockSize](_ => 0);
    var material := key;
    if |key| > h.blockSize {
      material := h.digest(key);
    }
    forall i | 0 <= i < |material| {
      keyBlock[i] := material[i];
    }
    PaddedInPlace(keyBlock[..], material);
  }

  lemma PaddedInPlace(s: seq<byte>, material: seq<byte>)
    requires |material| <= |s|
    requires forall i :: 0 <= i < |material| ==> s[i] == material[i]
    requires forall i :: |material| <= i < |s| ==> s[i] == 0
    ensures s == ZeroPad(material, |s|)
  {
  }

  // The pad loop: every octet of the key block is combined with the mask.
  method MaskInto(keyBlock: array<byte>, mask: byte, pad: array<byte>)
    requires keyBlock.Length == pad.Length && pad != keyBlock
    modifies pad
    ensures pad[..] == Masked(keyBlock[..], mask)
  {
    var i := 0;
    while i < pad.Length
      invariant 0 <= i <= pad.Length
      invariant forall j :: 0 <= j < i ==> pad[j] == Xor(keyBlock[j], mask)
    {
      pad[i] := Xor(keyBlock[i], mask);
      i := i + 1;
    }
  }
}
