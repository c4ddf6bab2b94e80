// The BELT cipher context: the partial-block buffer, the fast path for whole blocks and the
// zero-padded last block, refining BeltStream.
module BeltCipher {
  import opened Bytes
  import opened BeltModes
  import opened BeltStream
  import opened Options

  lemma TwoParts(blank: seq<byte>, middle: seq<byte>, now: seq<byte>, upd: nat, outl: nat)
    requires upd <= outl <= |blank| == |middle| == |now|
    requires middle[upd..] == blank[upd..] && now[..upd] == middle[..upd] && now[outl..] == middle[outl..]
    ensures now[..outl] == middle[..upd] + now[upd..outl] && now[outl..] == blank[outl..]
  {
    assert middle[outl..] == middle[upd..][outl - upd..] == blank[upd..][outl - upd..];
  }

  lemma BlockPut(before: seq<byte>, now: seq<byte>, blank: seq<byte>, n: nat)
    requires |before| == |now| == |blank| && n + BLOCK <= |now|
    requires now[..n] == before[..n] && now[n + BLOCK..] == before[n + BLOCK..] && before[n..] == blank[n..]
    ensures now[..n + BLOCK] == before[..n] + now[n..n + BLOCK]
    ensures now[n + BLOCK..] == blank[n + BLOCK..]
  {
    assert before[n + BLOCK..] == before[n..][BLOCK..] == blank[n..][BLOCK..];
  }

  lemma InputSlice(was: seq<byte>, input: seq<byte>, pos: nat, written: nat)
    requires |was| + pos == written && pos + BLOCK <= |input|
    ensures input[pos..pos + BLOCK] == (was + input)[written..written + BLOCK]
  {
  }

  lemma BufferGrows(was: seq<byte>, input: seq<byte>, pos: nat, copy: nat, written: nat)
    requires pos + copy <= |input| && written <= |was| + pos
    ensures (was + input)[written..|was| + pos] + input[pos..pos + copy] == (was + input)[written..|was| + pos + copy]
  {
  }

  lemma Finishes(s: Setup, st: Stream, input: seq<byte>, outsize: nat, written: nat, left: seq<byte>)
    requires st.Valid() && written % BLOCK == 0 && written <= outsize
    requires var total := st.buf + input; |total| == written + |left| && total[written..] == left
    requires if input == [] then written == 0 else |left| < BLOCK
    ensures var total := st.buf + input;
      BeltStream.Update(s, st, input, outsize)
      == Result(true, Stream(BlocksChain(s, st.chain, total[..written]), left), BlocksOut(s, st.chain,
          total[..written]))
  {
    var total := st.buf + input;
    if input == [] {
      assert total == st.buf;
    } else {
      assert WholePart(|total|) == written;
    }
  }

  lemma StopsShort(s: Setup, st: Stream, input: seq<byte>, outsize: nat, written: nat)
    requires st.Valid() && input != [] && written % BLOCK == 0 && written <= outsize < written + BLOCK
    requires written + BLOCK <= |st.buf| + |input|
    ensures var total := st.buf + input;
      BeltStream.Update(s, st, input, outsize)
      == Result(false, Stream(BlocksChain(s, st.chain, total[..written]), if written == 0 && st.buf != [] then
          total[..BLOCK] else []),
                BlocksOut(s, st.chain, total[..written]))
  {
    WholePartOf(outsize, written);
    WholePartOf(|st.buf| + |input|, WholePart(|st.buf| + |input|));
  }

  lemma WholePartOf(n: nat, written: nat)
    requires written % BLOCK == 0 && written <= n < written + BLOCK
    ensures WholePart(n) == written
  {
  }

  // Processing the block behind n octets extends the output by one block.
  lemma OneMoreBlock(s: Setup, chain: Block, total: seq<byte>, n: nat, x: seq<byte>)
    requires n % BLOCK == 0 && n + BLOCK <= |total| && x == total[n..n + BLOCK]
    ensures var (y, next) := Crypt(s, BlocksChain(s, chain, total[..n]), x);
      && BlocksOut(s, chain, total[..n + BLOCK]) == BlocksOut(s, chain, total[..n]) + y
      && BlocksChain(s, chain, total[..n + BLOCK]) == next
  {
    assert total[..n + BLOCK] == total[..n] + x;
    BlocksAppend(s, chain, total[..n], x);
    assert x[..BLOCK] == x && x[BLOCK..] == [];
  }

  class Belt {
    const cipher: BlockCipher
    const mode: Mode
    const fixedKeyLen: nat

    // The mode adapter.
    var key: seq<byte>
    var keySet: bool
    var iv: Block
    var ivSet: bool
    var chain: Block

    var enc: bool
    const buf: array<byte>
    var bufLen: nat

    // All but ECB need an IV.
    function Ready(): (ready: bool)
      reads `keySet, `ivSet
      ensures ready <==> keySet && (mode == ECB || ivSet)
    {
      keySet && (mode.TakesIv() ==> ivSet)
    }

    ghost predicate Valid()
      reads `bufLen, `keySet, `ivSet
    {
      && buf.Length == BLOCK && bufLen <= BLOCK
      && (bufLen > 0 ==> Ready())
    }

    function Setup(): Setup
      reads `enc, `key
    {
      BeltModes.Setup(cipher, mode, enc, key)
    }

    ghost function Stream(): Stream
      requires Valid()
      reads `chain, `bufLen, `keySet, `ivSet, buf
    {
      BeltStream.Stream(chain, buf[..bufLen])
    }

    constructor (cipher: BlockCipher, mode: Mode, fixedKeyLen: nat)
      ensures Valid() && fresh(buf) && !Ready() && Stream().buf == []
      ensures this.cipher == cipher && this.mode == mode && this.fixedKeyLen == fixedKeyLen
    {
      this.cipher, this.mode, this.fixedKeyLen := cipher, mode, fixedKeyLen;
      key, keySet, iv, ivSet, chain := [], false, Zeros(BLOCK), false, Zeros(BLOCK);
      enc := false;
      buf := new byte[BLOCK](_ => 0);
      bufLen := 0;
    }

    // A duplicate stands at the same point and shares no memory.
    constructor Duplicate(source: Belt)
      requires source.Valid()
      ensures Valid() && fresh(buf) && buf != source.buf
      ensures Setup() == source.Setup() && Stream() == source.Stream() && fixedKeyLen == source.fixedKeyLen
      ensures key == source.key && keySet == source.keySet && iv == source.iv && ivSet == source.ivSet
    {
      cipher, mode, fixedKeyLen := source.cipher, source.mode, source.fixedKeyLen;
      key, keySet, iv, ivSet, chain := source.key, source.keySet, source.iv, source.ivSet, source.chain;
      enc := source.enc;
      buf := new byte[BLOCK](i requires 0 <= i < BLOCK && source.Valid() reads source, source.buf => source.buf[i]);
      bufLen := source.bufLen;
    }

    // ------------------------------------------------------------ initialisation

    method Restart()
      requires Valid()
      modifies `chain
      ensures chain == if Ready() then StartChain(Setup(), iv) else old(chain)
    {
      if Ready() {
        chain := StartChain(Setup(), iv);
      }
    }

    method SetKey(k: seq<byte>)
      requires Valid() && bufLen == 0
      modifies `key, `keySet, `chain
      ensures Valid() && keySet && key == if |k| == 32 then k else cipher.expandKey(k)
    {
      key := if |k| == 32 then k else cipher.expandKey(k);
      keySet := true;
      Restart();
    }

    method SetIv(v: seq<byte>)
      requires Valid() && bufLen == 0 && |v| == BLOCK
      modifies `iv, `ivSet, `chain
      ensures Valid() && ivSet && iv == v
    {
      iv := v;
      ivSet := true;
      Restart();
    }

    // A failing call has still set the direction and dropped the buffer, and has taken a key of
    // the right length even when the IV is refused.
    method Init(newKey: Option<seq<byte>>, newIv: Option<seq<byte>>, encrypting: bool, keyLenParam: Option<nat>)
      returns (ok: bool)
      requires Valid()
      modifies this
      ensures Valid() && enc == encrypting && Stream().buf == []
      ensures ok <==>
        && (keyLenParam.Some? ==> keyLenParam.value == fixedKeyLen)
        && (newKey.Some? ==> |newKey.value| == fixedKeyLen)
        && (newIv.Some? ==> |newIv.value| == if mode == ECB then 0 else 16)
      ensures ok ==> (keySet <==> old(keySet) || newKey.Some?)
      ensures ok && newKey.Some? ==> key == if fixedKeyLen == 32 then newKey.value else cipher.expandKey(newKey.value)
      ensures newKey.None? ==> key == old(key) && keySet == old(keySet)
      ensures ok && mode != ECB ==> (ivSet <==> old(ivSet) || newIv.Some?)
      ensures ok && mode != ECB && newIv.Some? ==> iv == newIv.value
      ensures !ok || newIv.None? || mode == ECB ==> iv == old(iv) && ivSet == old(ivSet)
      ensures ok && Ready() ==> Stream() == BeltStream.Stream(StartChain(Setup(), iv), [])
    {
      enc := encrypting;
      bufLen := 0;
      if keyLenParam.Some? && keyLenParam.value != fixedKeyLen {
        return false;
      }
      if newKey.Some? {
        if |newKey.value| != fixedKeyLen {
          return false;
        }
        SetKey(newKey.value);
      }
      if newIv.Some? {
        if !mode.TakesIv() {
          if |newIv.value| != 0 {
            return false;
          }
        } else {
          if |newIv.value| != BLOCK {
            return false;
          }
          SetIv(newIv.value);
        }
      }
      if keySet {
        Restart();
      }
      return true;
    }

    // ------------------------------------------------------------ one block

    method ProcessBlock(x: seq<byte>, out: array<byte>, off: nat)
      requires |x| == BLOCK && off + BLOCK <= out.Length
      modifies `chain, out
      ensures (out[off..off + BLOCK], chain) == Crypt(Setup(), old(chain), x)
      ensures out[..off] == old(out[..off]) && out[off + BLOCK..] == old(out[off + BLOCK..])
    {
      var (y, next) := Crypt(Setup(), chain, x);
      chain := next;
      forall i | 0 <= i < BLOCK {
        out[off + i] := y[i];
      }
      assert out[off..off + BLOCK] == y;
    }

    // ------------------------------------------------------------ update

    // The first n octets of total are through the mode; the rest of the output is as it was.
    ghost predicate Through(from: Block, total: seq<byte>, n: nat, out: array<byte>, blank: seq<byte>)
      reads `chain, `enc, `key, out
    {
      && n % BLOCK == 0 && n <= |total| && n <= out.Length == |blank|
      && chain == BlocksChain(Setup(), from, total[..n])
      && out[..n] == BlocksOut(Setup(), from, total[..n]) && out[n..] == blank[n..]
    }

    // Where the loop of Update stands: it started with the buffer was and the chain from.
    ghost predicate Midway(from: Block, was: seq<byte>, input: seq<byte>, pos: nat, written: nat, out: array<byte>,
        blank: seq<byte>)
      reads this, buf, out
    {
      && buf.Length == BLOCK && bufLen <= BLOCK && pos <= |input|
      && Through(from, was + input, written, out, blank)
      && |was| + pos == written + bufLen
      && (was + input)[written..written + bufLen] == buf[..bufLen]
      && (pos < |input| ==> if written == 0 then pos == 0 else bufLen == 0)
      && (pos > 0 ==> bufLen < BLOCK) && (input == [] ==> written == 0)
    }

    method PassBlock(x: seq<byte>, out: array<byte>, written: nat, ghost from: Block, ghost total: seq<byte>,
        ghost blank: seq<byte>)
      requires |x| == BLOCK && written + BLOCK <= out.Length && written + BLOCK <= |total|
      requires Through(from, total, written, out, blank) && x == total[written..written + BLOCK]
      modifies `chain, out
      ensures Through(from, total, written + BLOCK, out, blank)
    {
      hide BlocksOut, BlocksChain, Crypt;
      OneMoreBlock(Setup(), from, total, written, x);
      ghost var before := out[..];
      ProcessBlock(x, out, written);
      BlockPut(before, out[..], blank, written);
    }

    method FillBuffer(input: seq<byte>, pos: nat) returns (copy: nat)
      requires buf.Length == BLOCK && bufLen <= BLOCK && pos <= |input|
      modifies `bufLen, buf
      ensures copy == Min(|input| - pos, BLOCK - old(bufLen)) && bufLen == old(bufLen) + copy
      ensures buf[..bufLen] == old(buf[..bufLen]) + input[pos..pos + copy]
    {
      copy := Min(|input| - pos, BLOCK - bufLen);
      forall i | 0 <= i < copy {
        buf[bufLen + i] := input[pos + i];
      }
      bufLen := bufLen + copy;
    }

    // One iteration that takes octets into the buffer and passes it on when it is full.
    method Accumulate(input: seq<byte>, pos: nat, out: array<byte>, outsize: nat, written: nat,
        ghost from: Block, ghost was: seq<byte>, ghost blank: seq<byte>)
      returns (ok: bool, pos': nat, written': nat)
      requires out != buf && outsize <= out.Length && written <= outsize && pos < |input|
      requires Midway(from, was, input, pos, written, out, blank) && !(bufLen == 0 && |input| - pos >= BLOCK)
      modifies `chain, `bufLen, buf, out
      ensures ok ==> Midway(from, was, input, pos', written', out, blank) && written' <= outsize
      ensures ok ==> 2 * (|input| - pos') + bufLen < 2 * (|input| - pos) + old(bufLen)
      ensures !ok ==> Through(from, was + input, written', out, blank) && written' == 0 && was != []
      ensures !ok ==> outsize < BLOCK <= |was + input| && bufLen == BLOCK && buf[..] == (was + input)[..BLOCK]
    {
      var copy := FillBuffer(input, pos);
      BufferGrows(was, input, pos, copy, written);
      ok, pos', written' := true, pos + copy, written;
      if bufLen == BLOCK {
        if outsize < written + BLOCK {
          return false, pos', written;
        }
        PassBlock(buf[..], out, written, from, was + input, blank);
        written' := written + BLOCK;
        bufLen := 0;
      }
    }

    // The loop: it takes all of the input, or stops where a block finds no room.
    method Loop(out: array<byte>, outsize: nat, input: seq<byte>, ghost from: Block, ghost was: seq<byte>,
        ghost blank: seq<byte>)
      returns (ok: bool, written: nat)
      requires out != buf && outsize == out.Length && Midway(from, was, input, 0, 0, out, blank)
      modifies `chain, `bufLen, buf, out
      ensures written <= outsize && bufLen <= BLOCK
      ensures ok ==> Midway(from, was, input, |input|, written, out, blank)
      ensures !ok ==> Through(from, was + input, written, out, blank) && outsize < written + BLOCK <= |was + input|
      ensures !ok ==> input != [] && buf[..bufLen] == if written == 0 && was != [] then (was + input)[..BLOCK] else []
    {
      hide BlocksOut, BlocksChain, Belt.Setup;
      var pos: nat := 0;
      written := 0;
      while pos < |input|
        invariant written <= outsize
        invariant Midway(from, was, input, pos, written, out, blank)
        decreases 2 * (|input| - pos) + bufLen
      {
        if bufLen == 0 && |input| - pos >= BLOCK {
          // Fast path: whole blocks straight from the input.
          if outsize < written + BLOCK {
            return false, written;
          }
          InputSlice(was, input, pos, written);
          PassBlock(input[pos..pos + BLOCK], out, written, from, was + input, blank);
          written := written + BLOCK;
          pos := pos + BLOCK;
        } else {
          ok, pos, written := Accumulate(input, pos, out, outsize, written, from, was, blank);
          if !ok {
            return;
          }
        }
      }
      ok := true;
    }

    method UpdateReady(out: array<byte>, outsize: nat, input: seq<byte>) returns (ok: bool, outl: nat)
      requires Valid() && Ready() && out != buf && outsize == out.Length
      modifies `chain, `bufLen, buf, out
      ensures bufLen <= BLOCK
      ensures var r := BeltStream.Update(Setup(), old(Stream()), input, outsize);
        && ok == r.ok && chain == r.next.chain && buf[..bufLen] == r.next.buf
        && |r.out| <= outsize && out[..|r.out|] == r.out && out[|r.out|..] == old(out[|r.out|..])
        && outl == if ok then |r.out| else 0
    {
      ghost var blank, from, was, st := out[..], chain, buf[..bufLen], Stream();
      var written;
      ok, written := Loop(out, outsize, input, from, was, blank);
      if !ok {
        StopsShort(Setup(), st, input, outsize, written);
        return false, 0;
      }
      assert (was + input)[written..] == (was + input)[written..written + bufLen];
      Finishes(Setup(), st, input, outsize, written, buf[..bufLen]);
      return true, written;
    }

    method Update(out: array<byte>, outsize: nat, input: seq<byte>) returns (ok: bool, outl: nat)
      requires Valid() && out != buf && outsize == out.Length
      modifies `chain, `bufLen, buf, out
      ensures Valid()
      ensures !Ready() ==> !ok && outl == 0 && Stream() == old(Stream()) && out[..] == old(out[..])
      ensures var r := BeltStream.Update(Setup(), old(Stream()), input, outsize);
        Ready() ==>
          && ok == r.ok && Stream() == r.next
          && |r.out| <= outsize && out[..|r.out|] == r.out && out[|r.out|..] == old(out[|r.out|..])
          && outl == if ok then |r.out| else 0
    {
      if !keySet || (mode.TakesIv() && !ivSet) {
        return false, 0;
      }
      ok, outl := UpdateReady(out, outsize, input);
    }

    // ------------------------------------------------------------ final

    method Final(out: array<byte>, from: nat, outsize: nat) returns (ok: bool, outl: nat)
      requires Valid() && out != buf && from + outsize == out.Length
      modifies `chain, `bufLen, out
      ensures Valid()
      ensures var r := BeltStream.Final(Setup(), old(Stream()), outsize);
        && ok == r.ok && Stream() == r.next
        && outl == |r.out| <= outsize && out[from..from + outl] == r.out
      ensures ok <==> old(bufLen) == 0 || ((mode == CFB || mode == CTR) && outsize >= old(bufLen))
      ensures outl == if ok then old(bufLen) else 0
      ensures out[..from] == old(out[..from]) && out[from + outl..] == old(out[from + outl..])
    {
      if bufLen == 0 {
        return true, 0;
      }
      if mode.AcceptsPartialBlock() {
        if outsize < bufLen {
          return false, 0;
        }
        // Pad with zeros to a block and keep only the live octets.
        hide Crypt;
        var tmpIn := ZeroPad(buf[..bufLen], BLOCK);
        var tmpOut := new byte[BLOCK](_ => 0);
        ProcessBlock(tmpIn, tmpOut, 0);
        assert tmpOut[..] == tmpOut[0..BLOCK];
        forall i | 0 <= i < bufLen {
          out[from + i] := tmpOut[i];
        }
        outl := bufLen;
        bufLen := 0;
        return true, outl;
      }
      return false, 0;
    }

    method UpdateAndFinal(out: array<byte>, outsize: nat, input: seq<byte>) returns (ok: bool, outl: nat)
      requires Valid() && out != buf && outsize == out.Length
      modifies `chain, `bufLen, buf, out
      ensures Valid()
      ensures !Ready() ==> !ok && Stream() == old(Stream()) && out[..] == old(out[..])
      ensures var r := Whole(Setup(), old(Stream()), input, outsize);
        Ready() ==>
          && ok == r.ok && Stream() == r.next
          && (ok ==> outl == |r.out| <= outsize && out[..outl] == r.out && out[outl..] == old(out[outl..]))
    {
      hide BeltStream.Update, BeltStream.Final;
      var upd, fin;
      ghost var s, blank, st := Setup(), out[..], Stream();
      ok, upd := Update(out, outsize, input);
      if !ok {
        return false, 0;
      }
      ghost var middle, u := out[..], BeltStream.Update(s, st, input, outsize);
      assert middle[..upd] == u.out && Stream() == u.next;
      ok, fin := Final(out, upd, outsize - upd);
      ghost var f := BeltStream.Final(s, u.next, outsize - upd);
      assert Whole(s, st, input, outsize) == Result(f.ok, f.next, u.out + f.out);
      if !ok {
        return false, 0;
      }
      outl := upd + fin;
      TwoParts(blank, middle, out[..], upd, outl);
    }

    // The whole message in one call.
    method Cipher(out: array<byte>, outsize: nat, input: seq<byte>) returns (ok: bool, outl: nat)
      requires Valid() && out != buf && outsize == out.Length
      modifies `chain, `bufLen, buf, out
      ensures Valid()
      ensures !Ready() ==> !ok && Stream() == old(Stream()) && out[..] == old(out[..])
      ensures Ready() && old(bufLen) == 0 ==>
        && (ok <==> (mode == CFB || mode == CTR || |input| % 16 == 0) && |input| <= outsize)
        && (ok ==> outl == |input| && out[..outl] == OneShot(Setup(), old(chain), input))
        && (ok ==> out[outl..] == old(out[outl..]))
    {
      ghost var st := Stream();
      if st.buf == [] {
        WholeIsOneShot(Setup(), st, input, outsize);
      }
      ok, outl := UpdateAndFinal(out, outsize, input);
    }
  }
}
