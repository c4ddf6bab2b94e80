// Streaming a message through a BELT mode in pieces, over values: what one update and the final
// call do, and that any way of cutting the message gives the one-shot result.
module BeltStream {
  import opened Bytes
  import opened BeltModes

  // The chain behind the blocks processed so far and the octets waiting for more.
  datatype Stream = Stream(chain: Block, buf: seq<byte>) {
    predicate Valid() {
      |buf| <= BLOCK
    }
  }

  datatype Result = Result(ok: bool, next: Stream, out: seq<byte>)

  function WholePart(n: nat): (w: nat)
    ensures w <= n < w + BLOCK && w % BLOCK == 0
  {
    n - n % BLOCK
  }

  // The octets an update has to put out.
  function Due(st: Stream, input: seq<byte>): nat {
    if input == [] then 0 else WholePart(|st.buf| + |input|)
  }

  // An update with room for outsize octets. Without enough room it still processes the blocks that
  // fit, and stops with an empty buffer or, before the first block, with a full one.
  function Update(s: Setup, st: Stream, input: seq<byte>, outsize: nat): (r: Result)
    requires st.Valid()
    ensures r.next.Valid()
  {
    var total := st.buf + input;
    if outsize >= Due(st, input) then
      var n := Due(st, input);
      Result(true, Stream(BlocksChain(s, st.chain, total[..n]), if input == [] then st.buf else total[n..]),
             BlocksOut(s, st.chain, total[..n]))
    else
      var n := WholePart(outsize);
      Result(false, Stream(BlocksChain(s, st.chain, total[..n]), if n == 0 && st.buf != [] then total[..BLOCK] else []),
             BlocksOut(s, st.chain, total[..n]))
  }

  function Final(s: Setup, st: Stream, outsize: nat): (r: Result)
    requires st.Valid()
  {
    if st.buf == [] then Result(true, st, [])
    else if !s.mode.AcceptsPartialBlock() || outsize < |st.buf| then Result(false, st, [])
    else
      var (y, next) := Crypt(s, st.chain, ZeroPad(st.buf, BLOCK));
      Result(true, Stream(next, []), y[..|st.buf|])
  }

  // Starting below a full buffer, an update succeeds exactly when there is room for every whole
  // block of buffer and input.
  lemma UpdateSucceedsIffRoom(s: Setup, st: Stream, input: seq<byte>, outsize: nat)
    requires |st.buf| < BLOCK
    ensures Update(s, st, input, outsize).ok <==> outsize >= BLOCK * ((|st.buf| + |input|) / BLOCK)
  {
    var n := |st.buf| + |input|;
    assert n == BLOCK * (n / BLOCK) + n % BLOCK;
  }

  // On every exit the octets processed and those buffered are the old buffer and the octets
  // consumed: nothing is lost, nothing is taken twice, and an accepted update consumes everything.
  lemma UpdateConserves(s: Setup, st: Stream, input: seq<byte>, outsize: nat)
    requires st.Valid()
    ensures var r := Update(s, st, input, outsize);
      exists done: seq<byte>, taken: nat :: taken <= |input|
        && done + r.next.buf == st.buf + input[..taken]
        && (r.ok ==> taken == |input|)
        && |done| % BLOCK == 0 && |done| <= outsize
        && r.out == BlocksOut(s, st.chain, done) && r.next.chain == BlocksChain(s, st.chain, done)
  {
    var r := Update(s, st, input, outsize);
    var total := st.buf + input;
    var n := if r.ok then Due(st, input) else WholePart(outsize);
    var done := total[..n];
    var taken := if input == [] then 0 else n + |r.next.buf| - |st.buf|;
    if input == [] {
      assert done == [] && st.buf + input[..0] == st.buf;
    } else {
      assert done + r.next.buf == total[..n + |r.next.buf|];
      assert total[..n + |r.next.buf|] == st.buf + input[..taken];
    }
  }

  // ---------------------------------------------------------------- messages in pieces

  // The stream after pieces that all found enough room, and what they put out.
  function FeedAll(s: Setup, st: Stream, pieces: seq<seq<byte>>): (r: Result)
    requires st.Valid()
    ensures r.ok && r.next.Valid()
    decreases |pieces|
  {
    if pieces == [] then Result(true, st, [])
    else
      var first := Update(s, st, pieces[0], Due(st, pieces[0]));
      var rest := FeedAll(s, first.next, pieces[1..]);
      Result(true, rest.next, first.out + rest.out)
  }

  // More room than due makes no difference.
  lemma RoomDoesNotMatter(s: Setup, st: Stream, input: seq<byte>, outsize: nat)
    requires st.Valid() && outsize >= Due(st, input)
    ensures Update(s, st, input, outsize) == Update(s, st, input, Due(st, input))
  {
  }

  // The whole blocks of a message are through, the rest is buffered.
  function Blocked(s: Setup, chain: Block, m: seq<byte>): (r: Result)
    ensures r.ok && |r.next.buf| < BLOCK
  {
    var n := WholePart(|m|);
    Result(true, Stream(BlocksChain(s, chain, m[..n]), m[n..]), BlocksOut(s, chain, m[..n]))
  }

  lemma {:induction false} FeedAllIsBlocks(s: Setup, st: Stream, pieces: seq<seq<byte>>)
    requires |st.buf| < BLOCK
    ensures FeedAll(s, st, pieces) == Blocked(s, st.chain, st.buf + Concat(pieces))
    decreases |pieces|
  {
    if pieces == [] {
      assert st.buf + Concat(pieces) == st.buf;
    } else {
      var first := PieceThenRest(s, st, pieces[0], Concat(pieces[1..]));
      FeedAllIsBlocks(s, first.next, pieces[1..]);
    }
  }

  lemma PieceThenRest(s: Setup, st: Stream, input: seq<byte>, rest: seq<byte>) returns (first: Result)
    requires |st.buf| < BLOCK
    ensures first == Update(s, st, input, Due(st, input)) && first.ok && |first.next.buf| < BLOCK
    ensures var two := Blocked(s, first.next.chain, first.next.buf + rest);
      Blocked(s, st.chain, st.buf + (input + rest)) == Result(true, two.next, first.out + two.out)
  {
    first := Update(s, st, input, Due(st, input));
    OnePieceIsBlocks(s, st, input);
    PiecesJoin(s, st.chain, st.buf + input, rest);
    assert st.buf + (input + rest) == (st.buf + input) + rest;
  }

  lemma OnePieceIsBlocks(s: Setup, st: Stream, input: seq<byte>)
    requires |st.buf| < BLOCK
    ensures Update(s, st, input, Due(st, input)) == Blocked(s, st.chain, st.buf + input)
  {
    if input == [] {
      assert st.buf + input == st.buf;
    }
  }

  // Whole blocks of a, then of what is left over with b, are the whole blocks of both.
  lemma PiecesJoin(s: Setup, chain: Block, a: seq<byte>, b: seq<byte>)
    ensures var one := Blocked(s, chain, a);
      var two := Blocked(s, one.next.chain, one.next.buf + b);
      Blocked(s, chain, a + b) == Result(true, two.next, one.out + two.out)
  {
    var n := WholePart(|a|);
    var left := a[n..] + b;
    var k, m := WholePart(|left|), WholePart(|a + b|);
    assert m == n + k;
    assert (a + b)[..m] == a[..n] + left[..k] && left[k..] == (a + b)[m..];
    BlocksAppend(s, chain, a[..n], left[..k]);
  }

  lemma BlockedThenFinal(s: Setup, chain: Block, m: seq<byte>, room: nat)
    ensures var fed := Blocked(s, chain, m);
      var end := Final(s, fed.next, room);
      && (end.ok <==> Accepts(s, m) && |fed.next.buf| <= room)
      && (end.ok ==> fed.out + end.out == OneShot(s, chain, m))
  {
    var n := WholePart(|m|);
    assert m == m[..n] + m[n..] && (m[n..] == [] <==> |m| % BLOCK == 0);
    if Accepts(s, m) {
      OneShotOfBlocks(s, chain, m[..n], m[n..]);
      if m[n..] != [] {
        PaddedBlockIsPartialBlock(s, BlocksChain(s, chain, m[..n]), m[n..]);
      }
    }
  }

  // Whatever the pieces, updates and a final call put out the mode applied once to the message, as many
  // octets as it has. CFB and CTR take messages of any length; the final call of the other modes refuses
  // exactly those that do not end with a whole block.
  lemma StreamingIsOneShot(s: Setup, iv: Block, pieces: seq<seq<byte>>, room: nat)
    requires room >= BLOCK
    ensures var st, m := Stream(StartChain(s, iv), []), Concat(pieces);
      var fed := FeedAll(s, st, pieces);
      var end := Final(s, fed.next, room);
      && (end.ok <==> s.mode == CFB || s.mode == CTR || |m| % 16 == 0)
      && (end.ok ==> fed.out + end.out == OneShot(s, StartChain(s, iv), m) && |fed.out + end.out| == |m|)
  {
    FeedAllIsBlocks(s, Stream(StartChain(s, iv), []), pieces);
    assert [] + Concat(pieces) == Concat(pieces);
    BlockedThenFinal(s, StartChain(s, iv), Concat(pieces), room);
  }

  // One update and one final call.
  function Whole(s: Setup, st: Stream, input: seq<byte>, outsize: nat): (r: Result)
    requires st.Valid()
  {
    var u := Update(s, st, input, outsize);
    if !u.ok || outsize < |u.out| then Result(false, u.next, [])
    else
      var f := Final(s, u.next, outsize - |u.out|);
      Result(f.ok, f.next, u.out + f.out)
  }

  // On an empty buffer they succeed exactly on a message of a length the mode takes, with room for it,
  // and put out the mode applied to it.
  lemma WholeIsOneShot(s: Setup, st: Stream, m: seq<byte>, outsize: nat)
    requires st.buf == []
    ensures var w := Whole(s, st, m, outsize);
      && (w.ok <==> (s.mode == CFB || s.mode == CTR || |m| % 16 == 0) && |m| <= outsize)
      && (w.ok ==> w.out == OneShot(s, st.chain, m))
  {
    assert st.buf + m == m;
    var u := Update(s, st, m, outsize);
    if u.ok {
      RoomDoesNotMatter(s, st, m, outsize);
      OnePieceIsBlocks(s, st, m);
      BlockedThenFinal(s, st.chain, m, outsize - |u.out|);
    }
  }

  // The whole of a message in pieces: what a context puts out from initialisation to the end.
  function Message(s: Setup, iv: Block, pieces: seq<seq<byte>>): seq<byte> {
    var fed := FeedAll(s, Stream(StartChain(s, iv), []), pieces);
    fed.out + Final(s, fed.next, BLOCK).out
  }

  // Decrypting, in pieces of any kind, what was encrypted in pieces of any other kind gives the
  // message back.
  lemma RoundTrip(s: Setup, iv: Block, plain: seq<seq<byte>>, cipher: seq<seq<byte>>)
    requires s.cipher.Valid() && s.enc && (s.mode == CFB || s.mode == CTR || |Concat(plain)| % 16 == 0)
    requires Concat(cipher) == Message(s, iv, plain)
    ensures Message(s.Reversed(), iv, cipher) == Concat(plain)
    ensures |Concat(cipher)| == |Concat(plain)|
  {
    StreamingIsOneShot(s, iv, plain, BLOCK);
    StreamingIsOneShot(s.Reversed(), iv, cipher, BLOCK);
    assert StartChain(s.Reversed(), iv) == StartChain(s, iv);
    OneShotInverts(s, StartChain(s, iv), Concat(plain));
  }
}
