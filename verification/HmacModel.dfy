// The HMAC context over values: digest selection, output size, key, and the message absorbed so
// far; and what whole runs of it compute.
module HmacModel {
  import opened Bytes
  import opened Hashing
  import opened Options
  import opened Secrets

  datatype Digest = BeltHash | Bash256 | Bash384 | Bash512

  function DigestSize(d: Digest): nat {
    match d
    case BeltHash => 32
    case Bash256 => 32
    case Bash384 => 48
    case Bash512 => 64
  }

  function BlockSize(d: Digest): nat {
    match d
    case BeltHash => 32
    case Bash256 => 160
    case Bash384 => 144
    case Bash512 => 128
  }

  // What Bee2 computes: the digests, HMAC over belt-hash as one primitive, and whatever comes out
  // of a state that one algorithm started and another one goes on with.
  datatype Primitives = Primitives(
    hash: Digest -> HashAlg,
    beltHmac: (seq<byte>, seq<byte>) -> seq<byte>,
    muddled: Digest -> seq<byte>)
  {
    ghost predicate Valid() {
      && (forall d :: hash(d).Valid() && hash(d).digestSize == DigestSize(d) && hash(d).blockSize == BlockSize(d))
      && (forall k, m :: |beltHmac(k, m)| == DigestSize(BeltHash))
      && (forall d :: |muddled(d)| == DigestSize(d))
    }
  }

  function Mac(p: Primitives, d: Digest, key: seq<byte>, message: seq<byte>): (mac: seq<byte>)
    requires p.Valid()
    ensures |mac| == DigestSize(d)
  {
    if d.BeltHash? then p.beltHmac(key, message) else Hmac(p.hash(d), key, message)
  }

  datatype DigestParam = NotGiven | Unrecognised | Named(digest: Digest)

  // A size or key that cannot be read fails as a zero size or an empty key does.
  datatype Params = Params(digest: DigestParam, size: Option<nat>, key: Option<Secret>)
  const NO_PARAMS := Params(NotGiven, None, None)

  // Running: the digest and key the message was started with, the message so far, and whether
  // another digest has meddled with the state.
  datatype Phase = Idle | Running(alg: Digest, key: seq<byte>, message: seq<byte>, foreign: bool)

  datatype Ctx = Ctx(digest: Digest, key: Option<seq<byte>>, outputSize: nat, sizeSet: bool, phase: Phase) {
    predicate WellFormed() {
      && outputSize > 0
      && (key.Some? ==> key.value != [])
      && (phase.Running? ==> key.Some?)
    }

    // The digest and size in force belong together, and a running message is under that digest.
    predicate Coherent() {
      && outputSize <= DigestSize(digest)
      && (phase.Running? ==> phase.alg == digest && !phase.foreign)
    }
  }

  const NEW_CTX := Ctx(BeltHash, None, DigestSize(BeltHash), false, Idle)

  function SetDigest(c: Ctx, d: DigestParam): (Ctx, bool) {
    match d
    case NotGiven => (c, true)
    case Unrecognised => (c, false)
    case Named(digest) =>
      if !c.sizeSet then (c.(digest := digest, outputSize := DigestSize(digest), phase := Idle), true)
      // The digest has been switched by the time the size is found not to fit.
      else if c.outputSize > DigestSize(digest) then (c.(digest := digest), false)
      else (c.(digest := digest, phase := Idle), true)
  }

  function SetSize(c: Ctx, size: Option<nat>): (Ctx, bool) {
    if size.None? then (c, true)
    else if size.value == 0 || size.value > DigestSize(c.digest) then (c, false)
    else (c.(outputSize := size.value, sizeSet := true), true)
  }

  predicate Takes(key: Secret) {
    key.value != [] && key.copied
  }

  function SetKey(c: Ctx, key: Option<Secret>): (Ctx, bool) {
    if key.None? then (c, true)
    else if !Takes(key.value) then (c, false)
    else (c.(key := Some(key.value.value), phase := Idle), true)
  }

  function SetParams(c: Ctx, p: Params): (r: (Ctx, bool)) {
    var d := SetDigest(c, p.digest);
    if !d.1 then d
    else
      var s := SetSize(d.0, p.size);
      if !s.1 then s else SetKey(s.0, p.key)
  }

  function Init(c: Ctx, key: Option<Secret>, p: Params): (r: (Ctx, bool)) {
    var s := SetParams(c, p);
    if !s.1 then s
    else if key.Some? && !Takes(key.value) then (s.0, false)
    else
      var k := if key.Some? then s.0.(key := Some(key.value.value)) else s.0;
      if k.key.None? then (k, false)
      else (k.(phase := Running(k.digest, k.key.value, [], false)), true)
  }

  function Update(c: Ctx, input: seq<byte>): (r: (Ctx, bool)) {
    if c.phase.Idle? then (c, false)
    else
      var foreign := c.phase.foreign || (input != [] && c.digest != c.phase.alg);
      (c.(phase := c.phase.(message := c.phase.message + input, foreign := foreign)), true)
  }

  predicate Finishes(c: Ctx, room: nat) {
    c.phase.Running? && c.outputSize <= room && c.outputSize <= DigestSize(c.digest)
  }

  function Final(c: Ctx, room: nat): Ctx {
    if Finishes(c, room) then c.(phase := Idle) else c
  }

  // What a successful final call puts out while digest, size and message belong together.
  function Tag(p: Primitives, c: Ctx): (tag: seq<byte>)
    requires p.Valid() && c.phase.Running? && c.Coherent()
    ensures |tag| == c.outputSize
  {
    Mac(p, c.digest, c.phase.key, c.phase.message)[..c.outputSize]
  }

  // ---------------------------------------------------------------- what the calls take

  // The digest in force after parameters, the one before being what they do not name.
  function DigestAfter(c: Ctx, p: Params): Digest {
    if p.digest.Named? then p.digest.digest else c.digest
  }

  // A size that is given; otherwise the size of a digest that is named, unless a size was given before.
  function SizeAfter(c: Ctx, p: Params): nat {
    if p.size.Some? then p.size.value
    else if p.digest.Named? && !c.sizeSet then DigestSize(p.digest.digest)
    else c.outputSize
  }

  predicate ParamsFit(c: Ctx, p: Params) {
    var most := DigestSize(DigestAfter(c, p));
    && !p.digest.Unrecognised?
    && (p.digest.Named? && c.sizeSet ==> c.outputSize <= most)
    && (p.size.Some? ==> 1 <= p.size.value <= most)
    && (p.key.Some? ==> |p.key.value.value| > 0 && p.key.value.copied)
  }

  // Parameters are taken exactly when they fit; a digest or a key ends the message under way.
  lemma SetParamsOutcome(c: Ctx, p: Params)
    ensures SetParams(c, p).1 <==> ParamsFit(c, p)
    ensures var key, phase := if p.key.Some? then Some(p.key.value.value) else c.key,
                              if p.digest.Named? || p.key.Some? then Idle else c.phase;
      SetParams(c, p).1 ==>
        SetParams(c, p).0 == Ctx(DigestAfter(c, p), key, SizeAfter(c, p), c.sizeSet || p.size.Some?, phase)
  {
  }

  // Initialisation succeeds exactly when the parameters fit and there is a key, the one passed if there
  // is one, which must not be empty, then the one among the parameters, then the stored one.
  lemma InitOutcome(c: Ctx, key: Option<Secret>, p: Params)
    ensures var k := if key.Some? then Some(key.value.value)
                     else if p.key.Some? then Some(p.key.value.value) else c.key;
      var r := Init(c, key, p);
      && (r.1 <==> ParamsFit(c, p) && k.Some? && (key.Some? ==> |key.value.value| > 0 && key.value.copied))
      && (r.1 ==> r.0 == Ctx(DigestAfter(c, p), k, SizeAfter(c, p), c.sizeSet || p.size.Some?,
                             Running(DigestAfter(c, p), k.value, [], false)))
  {
    hide SetParams, ParamsFit;
    SetParamsOutcome(c, p);
  }

  // A MAC under a BASH digest is what section 2 of RFC 2104 says, with blocks of 160, 144 and 128 octets
  // and digests of 32, 48 and 64.
  lemma TagIsRfc2104(p: Primitives, c: Ctx, inner: seq<byte>, outer: seq<byte>)
    requires p.Valid() && c.phase.Running? && c.Coherent() && !c.digest.BeltHash?
    requires Pad(p.hash(c.digest), c.phase.key, 0x36, inner) && Pad(p.hash(c.digest), c.phase.key, 0x5C, outer)
    ensures var h := p.hash(c.digest);
      var mac := h.digest(outer + h.digest(inner + c.phase.message));
      && |inner| == |outer| == (match c.digest case Bash256 => 160 case Bash384 => 144 case Bash512 => 128)
      && |mac| == (match c.digest case Bash256 => 32 case Bash384 => 48 case Bash512 => 64)
      && Tag(p, c) == mac[..c.outputSize]
  {
    HmacIsRfc2104(p.hash(c.digest), c.phase.key, c.phase.message, inner, outer);
  }

  // What a final call puts out, with nothing left to the definitions of this module: the leftmost octets
  // of the belt-hash HMAC of Bee2, or of the HMAC of RFC 2104 under a BASH digest.
  ghost predicate SpelledOut(p: Primitives, d: Digest, key: seq<byte>, message: seq<byte>, tag: seq<byte>)
    requires p.Valid()
  {
    var h := p.hash(d);
    if d.BeltHash? then tag <= p.beltHmac(key, message)
    else forall inner, outer :: Pad(h, key, 0x36, inner) && Pad(h, key, 0x5C, outer) ==>
      tag <= h.digest(outer + h.digest(inner + message))
  }

  lemma TagIsSpelledOut(p: Primitives, c: Ctx)
    requires p.Valid() && c.phase.Running? && c.Coherent()
    ensures SpelledOut(p, c.digest, c.phase.key, c.phase.message, Tag(p, c))
  {
    var h, key := p.hash(c.digest), c.phase.key;
    if !c.digest.BeltHash? {
      forall inner, outer | Pad(h, key, 0x36, inner) && Pad(h, key, 0x5C, outer)
        ensures Tag(p, c) <= h.digest(outer + h.digest(inner + c.phase.message))
      {
        TagIsRfc2104(p, c, inner, outer);
      }
    }
  }

  // ---------------------------------------------------------------- runs

  datatype Command =
    | DoSetParams(params: Params)
    | DoInit(key: Option<Secret>, params: Params)
    | DoUpdate(input: seq<byte>)
    | DoFinal(room: nat)

  function Step(c: Ctx, cmd: Command): Ctx {
    match cmd
    case DoSetParams(p) => SetParams(c, p).0
    case DoInit(key, p) => Init(c, key, p).0
    case DoUpdate(input) => Update(c, input).0
    case DoFinal(room) => Final(c, room)
  }

  function Run(c: Ctx, cmds: seq<Command>): Ctx
    decreases |cmds|
  {
    if cmds == [] then c else Run(Step(c, cmds[0]), cmds[1..])
  }

  // The digest parameter that names a digest too short for the size in force.
  predicate Overreaches(c: Ctx, d: DigestParam) {
    d.Named? && c.sizeSet && c.outputSize > DigestSize(d.digest)
  }

  // Digest, size and running message stay together exactly while no digest is named that the size
  // in force overreaches: that call fails, but only after switching the digest.
  lemma CoherenceIsLostExactlyByOverreach(c: Ctx, cmd: Command)
    requires c.Coherent()
    ensures Step(c, cmd).Coherent() <==> !Overreaches(c, NamedBy(cmd))
  {
    if cmd.DoSetParams? || cmd.DoInit? {
      ParamsKeepCoherence(c, cmd.params);
    }
  }

  lemma ParamsKeepCoherence(c: Ctx, p: Params)
    requires c.Coherent()
    ensures var r := SetParams(c, p);
      && (r.0.Coherent() <==> !Overreaches(c, p.digest))
      && (Overreaches(c, p.digest) ==> !r.1)
  {
    var d := SetDigest(c, p.digest);
    assert d.0.Coherent() <==> !Overreaches(c, p.digest);
    var s := SetSize(d.0, p.size);
    assert d.0.Coherent() ==> s.0.Coherent();
  }

  function NamedBy(cmd: Command): DigestParam {
    if cmd.DoSetParams? || cmd.DoInit? then cmd.params.digest else NotGiven
  }

  predicate NeverOverreaches(c: Ctx, cmds: seq<Command>)
    decreases |cmds|
  {
    cmds == [] || (!Overreaches(c, NamedBy(cmds[0])) && NeverOverreaches(Step(c, cmds[0]), cmds[1..]))
  }

  // Every state that a run from a coherent context goes through is coherent, exactly when no call
  // of the run names a digest that the size in force overreaches.
  lemma {:induction false} RunsStayCoherent(c: Ctx, cmds: seq<Command>)
    requires c.Coherent()
    ensures NeverOverreaches(c, cmds) <==> forall n :: 0 <= n <= |cmds| ==> Run(c, cmds[..n]).Coherent()
    decreases |cmds|
  {
    if cmds == [] {
      assert forall n :: 0 <= n <= |cmds| ==> cmds[..n] == [];
    } else {
      var next := Step(c, cmds[0]);
      CoherenceIsLostExactlyByOverreach(c, cmds[0]);
      forall n | 1 <= n <= |cmds|
        ensures Run(c, cmds[..n]) == Run(next, cmds[1..][..n - 1])
      {
        assert cmds[..n][1..] == cmds[1..][..n - 1];
      }
      assert cmds[..0] == [] && cmds[1..][..0] == [];
      assert Run(c, cmds[..1]) == Run(next, cmds[1..][..0]) == next;
      if next.Coherent() {
        RunsStayCoherent(next, cmds[1..]);
        if forall n :: 0 <= n <= |cmds| ==> Run(c, cmds[..n]).Coherent() {
          forall n | 0 <= n <= |cmds[1..]|
            ensures Run(next, cmds[1..][..n]).Coherent()
          {
            assert Run(c, cmds[..n + 1]).Coherent();
          }
        }
      }
    }
  }

  // Such a run from a new context: a 64-octet MAC under bash512 is under way, bash256 is refused, the
  // size is lowered, and the final call then succeeds on a state of the other digest.
  lemma OverreachExample(key: seq<byte>)
    requires key != []
    ensures var start := DoInit(Some(Secret(key, true)), Params(Named(Bash512), Some(64), None));
      var refused, lower := Params(Named(Bash256), None, None), Params(NotGiven, Some(32), None);
      var s := Run(NEW_CTX, [start]);
      var e := Run(NEW_CTX, [start, DoSetParams(refused), DoSetParams(lower)]);
      && s.phase == Running(Bash512, key, [], false) && !SetParams(s, refused).1
      && Finishes(e, 32) && e.phase.alg == Bash512 && e.digest == Bash256
  {
    var start := DoInit(Some(Secret(key, true)), Params(Named(Bash512), Some(64), None));
    var a, b := DoSetParams(Params(Named(Bash256), None, None)), DoSetParams(Params(NotGiven, Some(32), None));
    var s := Step(NEW_CTX, start);
    assert [start][1..] == [] && [start, a, b][1..] == [a, b] && [a, b][1..] == [b] && [b][1..] == [];
    assert Run(NEW_CTX, [start]) == Run(s, []) == s;
    assert Run(NEW_CTX, [start, a, b]) == Run(s, [a, b]);
    assert Run(s, [a, b]) == Run(Step(s, a), [b]);
    assert Run(Step(s, a), [b]) == Run(Step(Step(s, a), b), []);
  }

  function UpdateAll(c: Ctx, pieces: seq<seq<byte>>): Ctx
    decreases |pieces|
  {
    if pieces == [] then c else UpdateAll(Update(c, pieces[0]).0, pieces[1..])
  }

  lemma {:induction false} UpdatesConcatenate(c: Ctx, pieces: seq<seq<byte>>)
    requires c.Coherent() && c.phase.Running?
    ensures UpdateAll(c, pieces) == c.(phase := c.phase.(message := c.phase.message + Concat(pieces)))
    decreases |pieces|
  {
    if pieces == [] {
      assert c.phase.message + Concat(pieces) == c.phase.message;
    } else {
      UpdatesConcatenate(Update(c, pieces[0]).0, pieces[1..]);
      assert c.phase.message + Concat(pieces) == (c.phase.message + pieces[0]) + Concat(pieces[1..]);
    }
  }

  // After a successful initialisation, any cutting of a message gives the leftmost octets of the
  // MAC of the whole message, under the key and digest in force.
  lemma MacOfMessage(p: Primitives, c: Ctx, key: Option<Secret>, params: Params, pieces: seq<seq<byte>>, room: nat)
    requires p.Valid() && c.WellFormed() && c.Coherent() && Init(c, key, params).1
    requires room >= Init(c, key, params).0.outputSize
    ensures var s := Init(c, key, params).0;
      var e := UpdateAll(s, pieces);
      && Finishes(e, room) && e.Coherent()
      && s.key.Some? && s.outputSize <= DigestSize(s.digest)
      && (key.Some? ==> s.key.value == key.value.value)
      && Tag(p, e) == Mac(p, s.digest, s.key.value, Concat(pieces))[..s.outputSize]
    ensures var s := Init(c, key, params).0;
      var e := UpdateAll(s, pieces);
      SpelledOut(p, s.digest, s.key.value, Concat(pieces), Tag(p, e)) && |Tag(p, e)| == s.outputSize
  {
    var s := Init(c, key, params).0;
    ParamsKeepCoherence(c, params);
    UpdatesConcatenate(s, pieces);
    assert [] + Concat(pieces) == Concat(pieces);
    TagIsSpelledOut(p, UpdateAll(s, pieces));
  }

  // Initialising again without a key replays the MAC, however the first message ended.
  lemma ReinitialisationReplays(c: Ctx, pieces: seq<seq<byte>>, room: nat)
    requires c.WellFormed() && c.Coherent() && c.phase.Running? && c.key == Some(c.phase.key)
    ensures Init(UpdateAll(c, pieces), None, NO_PARAMS) == (c.(phase := c.phase.(message := [], foreign := false)),
        true)
    ensures Init(Final(UpdateAll(c, pieces), room), None, NO_PARAMS) == Init(UpdateAll(c, pieces), None, NO_PARAMS)
  {
    UpdatesConcatenate(c, pieces);
  }

  // A key longer than the block of the BASH digest in force behaves as its digest.
  lemma LongKey(p: Primitives, d: Digest, key: seq<byte>, message: seq<byte>)
    requires p.Valid() && !d.BeltHash? && |key| > BlockSize(d)
    ensures Mac(p, d, key, message) == Mac(p, d, p.hash(d).digest(key), message)
  {
    LongKeyActsAsItsDigest(p.hash(d), key, message);
  }
}
