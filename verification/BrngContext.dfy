// The life cycle of a BRNG context over values: parameters, instantiation, generation, reseeding.
// The class in BrngRand.dfy is proved to do exactly these steps; here are the properties of
// whole runs.
module BrngContext {
  import opened Bytes
  import opened Hashing
  import opened Options
  import opened BrngModel
  import opened Secrets

  // ---------------------------------------------------------------- reading the stream

  // Octets of a request that the reserve does not cover.
  function Uncovered(reserved: nat, outlen: nat): nat {
    if outlen <= reserved then 0 else outlen - reserved
  }

  // How far the stream of a seed has been read: the additional inputs of the blocks made so far,
  // and how many octets of the last block are still to be served.
  datatype Reader = Reader(seed: Seed, xs: seq<seq<byte>>, reserved: nat) {
    predicate Valid() {
      seed.Valid() && reserved < BLOCK && reserved <= BLOCK * |xs|
    }

    function Position(): nat
      requires Valid()
    {
      BLOCK * |xs| - reserved
    }

    function Need(outlen: nat): nat {
      Uncovered(reserved, outlen)
    }

    function After(outlen: nat, addin: seq<byte>): (r: Reader)
      requires Valid()
      ensures r.Valid() && r.seed == seed && xs <= r.xs
      ensures r.Position() == Position() + outlen
    {
      var used := if seed.mode.CtrHbelt? then addin else [];
      var blocks := AddinBlocks(used, Need(outlen));
      Reader(seed, xs + blocks, reserved + BLOCK * |blocks| - outlen)
    }

    function Read(h: HashAlg, outlen: nat, addin: seq<byte>): (out: seq<byte>)
      requires BeltHash(h) && Valid()
      ensures |out| == outlen
    {
      var next := After(outlen, addin);
      Output(h, seed, next.xs)[Position()..next.Position()]
    }
  }

  datatype Request = Request(outlen: nat, addin: seq<byte>)

  function AfterAll(r: Reader, requests: seq<Request>): (s: Reader)
    requires r.Valid()
    ensures s.Valid() && s.seed == r.seed && r.xs <= s.xs
    ensures s.Position() == r.Position() + TotalLength(requests)
    decreases |requests|
  {
    if requests == [] then r
    else AfterAll(r.After(requests[0].outlen, requests[0].addin), requests[1..])
  }

  function ReadAll(h: HashAlg, r: Reader, requests: seq<Request>): seq<byte>
    requires BeltHash(h) && r.Valid()
    decreases |requests|
  {
    if requests == [] then []
    else
      r.Read(h, requests[0].outlen, requests[0].addin)
      + ReadAll(h, r.After(requests[0].outlen, requests[0].addin), requests[1..])
  }

  function TotalLength(requests: seq<Request>): nat {
    if requests == [] then 0 else requests[0].outlen + TotalLength(requests[1..])
  }

  // Any sequence of requests reads consecutive pieces of the one stream that the key, the IV and
  // the additional inputs determine.
  lemma {:induction false} RequestsReadOneStream(h: HashAlg, r: Reader, requests: seq<Request>)
    requires BeltHash(h) && r.Valid()
    ensures var s := AfterAll(r, requests);
      ReadAll(h, r, requests) == Output(h, r.seed, s.xs)[r.Position()..s.Position()]
    decreases |requests|
  {
    if requests != [] {
      var q := requests[0];
      var next := r.After(q.outlen, q.addin);
      RequestsReadOneStream(h, next, requests[1..]);
      ReadThenSlice(h, r, q, AfterAll(next, requests[1..]));
    }
  }

  lemma ReadThenSlice(h: HashAlg, r: Reader, q: Request, s: Reader)
    requires BeltHash(h) && r.Valid() && s.Valid() && s.seed == r.seed
    requires r.After(q.outlen, q.addin).xs <= s.xs
    requires r.After(q.outlen, q.addin).Position() <= s.Position()
    ensures var y, middle := Output(h, r.seed, s.xs), r.After(q.outlen, q.addin).Position();
      r.Read(h, q.outlen, q.addin) + y[middle..s.Position()] == y[r.Position()..s.Position()]
  {
    var next := r.After(q.outlen, q.addin);
    var rest := s.xs[|next.xs|..];
    assert s.xs == next.xs + rest;
    OutputExtends(h, r.seed, next.xs, rest);
    SlicesJoin(Output(h, r.seed, next.xs), Output(h, r.seed, s.xs), r.Position(), next.Position(), s.Position());
  }

  lemma SlicesJoin(short: seq<byte>, long: seq<byte>, a: nat, b: nat, c: nat)
    requires short <= long && a <= b <= c <= |long| && b <= |short|
    ensures short[a..b] + long[b..c] == long[a..c]
  {
    assert short == long[..|short|];
  }

  // Without additional input, splitting a request changes neither what follows...
  lemma SplittingMoves(r: Reader, n: nat, m: nat)
    requires r.Valid()
    ensures r.After(n, []).After(m, []) == r.After(n + m, [])
  {
    var a := r.After(n, []);
    var b := a.After(m, []);
    var one := r.After(n + m, []);
    assert |b.xs| == |one.xs|;
    forall i | 0 <= i < |b.xs|
      ensures b.xs[i] == one.xs[i]
    {
      if |r.xs| <= i {
        EmptyAddinBlock(r.Need(n + m), i - |r.xs|);
        if i < |a.xs| {
          EmptyAddinBlock(r.Need(n), i - |r.xs|);
        } else {
          EmptyAddinBlock(a.Need(m), i - |a.xs|);
        }
      }
    }
    assert b.xs == one.xs;
  }

  // ... nor the octets.
  lemma SplittingARequest(h: HashAlg, r: Reader, n: nat, m: nat)
    requires BeltHash(h) && r.Valid()
    ensures r.Read(h, n, []) + r.After(n, []).Read(h, m, []) == r.Read(h, n + m, [])
  {
    SplittingMoves(r, n, m);
    ReadThenSlice(h, r, Request(n, []), r.After(n + m, []));
  }

  lemma EmptyAddinBlock(need: nat, i: nat)
    ensures AddinBlock([], need, i) == Zeros(BLOCK)
  {
  }

  lemma ReadingNothing(r: Reader)
    requires r.Valid()
    ensures r.After(0, []) == r
  {
    assert r.xs + AddinBlocks([], 0) == r.xs;
  }

  // So requests without additional input amount to one request for the total.
  lemma {:induction false} OnlyTheTotalMoves(r: Reader, requests: seq<Request>, total: nat)
    requires r.Valid() && total == TotalLength(requests)
    requires forall i :: 0 <= i < |requests| ==> requests[i].addin == []
    ensures AfterAll(r, requests) == r.After(total, [])
    decreases |requests|
  {
    hide Reader.After;
    if requests == [] {
      ReadingNothing(r);
    } else {
      var n := requests[0].outlen;
      OnlyTheTotalMoves(r.After(n, []), requests[1..], total - n);
      FirstMoves(r, requests, n, total - n);
    }
  }

  lemma FirstMoves(r: Reader, requests: seq<Request>, n: nat, m: nat)
    requires r.Valid() && requests != [] && requests[0] == Request(n, [])
    requires AfterAll(r.After(n, []), requests[1..]) == r.After(n, []).After(m, [])
    ensures AfterAll(r, requests) == r.After(n + m, [])
  {
    hide Reader.After;
    SplittingMoves(r, n, m);
  }

  lemma OnlyTheTotalMatters(h: HashAlg, r: Reader, requests: seq<Request>)
    requires BeltHash(h) && r.Valid()
    requires forall i :: 0 <= i < |requests| ==> requests[i].addin == []
    ensures AfterAll(r, requests) == r.After(TotalLength(requests), [])
    ensures ReadAll(h, r, requests) == r.Read(h, TotalLength(requests), [])
  {
    OnlyTheTotalMoves(r, requests, TotalLength(requests));
    RequestsReadOneStream(h, r, requests);
  }

  // ---------------------------------------------------------------- the context

  datatype Phase = Uninitialised | Ready(reader: Reader) | Failed

  datatype Ctx = Ctx(mode: Mode, key: Option<seq<byte>>, iv: Option<seq<byte>>, phase: Phase) {
    predicate FitsMode(value: seq<byte>) {
      mode.CtrHbelt? ==> |value| == BLOCK
    }

    predicate ParamsFit() {
      && (key.Some? ==> FitsMode(key.value))
      && (iv.Some? ==> FitsMode(iv.value))
    }

    predicate WellFormed() {
      && ParamsFit()
      && (phase.Ready? ==>
            && key.Some?
            && (mode.CtrHbelt? ==> iv.Some?)
            && phase.reader.Valid()
            && phase.reader.seed.mode == mode
            && FitsMode(phase.reader.seed.key)
            && phase.reader.seed.iv == iv.GetOr([]))
    }
  }

  function NewCtx(mode: Mode): (c: Ctx)
    ensures c.WellFormed()
  {
    Ctx(mode, None, None, Uninitialised)
  }

  // An octet-string parameter: not passed, not an octet string, or given.
  datatype Param = Absent | Malformed | Given(secret: Secret)
  datatype Params = Params(key: Param, iv: Param)
  const NO_PARAMS := Params(Absent, Absent)

  predicate Accepts(c: Ctx, s: Secret) {
    c.FitsMode(s.value) && Replaces(s)
  }

  predicate AcceptsParam(c: Ctx, p: Param) {
    p.Given? && Accepts(c, p.secret)
  }

  function SetKey(c: Ctx, p: Param): (r: (Ctx, bool))
    requires c.WellFormed()
    ensures r.0.WellFormed() && r.0.mode == c.mode
  {
    if p.Absent? then (c, true)
    else if !AcceptsParam(c, p) then (c, false)
    else (c.(key := Some(p.secret.value), phase := Uninitialised), true)
  }

  function SetIv(c: Ctx, p: Param): (r: (Ctx, bool))
    requires c.WellFormed()
    ensures r.0.WellFormed() && r.0.mode == c.mode
  {
    if p.Absent? then (c, true)
    else if !AcceptsParam(c, p) then (c, false)
    else (c.(iv := Some(p.secret.value), phase := Uninitialised), true)
  }

  // The key is taken before the IV is looked at, so a rejected IV leaves the new key in place.
  function SetParams(c: Ctx, p: Params): (r: (Ctx, bool))
    requires c.WellFormed()
    ensures r.0.WellFormed() && r.0.mode == c.mode
  {
    var k := SetKey(c, p.key);
    if k.1 then SetIv(k.0, p.iv) else k
  }

  // Starts the stream of the stored key and IV, whatever went before.
  function Restart(c: Ctx, zeroIvCopied: bool): (r: (Ctx, bool))
    requires c.ParamsFit()
    ensures r.0.WellFormed() && r.0.mode == c.mode
    ensures r.1 <==> c.key.Some? && (c.mode.CtrHbelt? && c.iv.None? ==> zeroIvCopied)
    ensures r.1 <==> r.0.phase.Ready?
  {
    if c.key.None? || (c.mode.CtrHbelt? && c.iv.None? && !zeroIvCopied) then (c.(phase := Failed), false)
    else
      var iv := if c.mode.CtrHbelt? && c.iv.None? then Some(Zeros(BLOCK)) else c.iv;
      var seed := Seed(c.mode, c.key.value, iv.GetOr([]));
      (Ctx(c.mode, c.key, iv, Ready(Reader(seed, [], 0))), true)
  }

  function Instantiate(c: Ctx, strength: nat, p: Params, zeroIvCopied: bool): (r: (Ctx, bool))
    requires c.WellFormed()
    ensures r.0.WellFormed() && r.0.mode == c.mode
    ensures r.1 ==> r.0.phase.Ready?
  {
    if strength > STRENGTH then (c, false)
    else
      var k := SetParams(c, p);
      if k.1 then Restart(k.0, zeroIvCopied) else k
  }

  function Uninstantiate(c: Ctx): Ctx {
    c.(phase := Uninitialised)
  }

  predicate Serves(c: Ctx, outlen: nat, strength: nat) {
    c.phase.Ready? && strength <= STRENGTH && outlen <= SIZE_MAX
  }

  function Generate(c: Ctx, outlen: nat, strength: nat, addin: seq<byte>): (r: Ctx)
    requires c.WellFormed()
    ensures r.WellFormed() && r.mode == c.mode
  {
    if Serves(c, outlen, strength) then c.(phase := Ready(c.phase.reader.After(outlen, addin))) else c
  }

  // Entropy replaces the key and additional input the IV; then the context starts again.
  function Reseed(c: Ctx, entropy: Secret, addin: Secret, zeroIvCopied: bool): (r: (Ctx, bool))
    requires c.WellFormed()
    ensures r.0.WellFormed() && r.0.mode == c.mode
  {
    if !Skipped(entropy) && !Accepts(c, entropy) then (c, false)
    else
      var k := if Skipped(entropy) then c else c.(key := Some(entropy.value));
      if !Skipped(addin) && !Accepts(c, addin) then (k, false)
      else
        var v := if Skipped(addin) then k else k.(iv := Some(addin.value));
        Restart(v, zeroIvCopied)
  }

  // Reseeding ignores a missing or empty string.
  predicate Skipped(s: Secret) {
    s.value == []
  }

  // ---------------------------------------------------------------- what the calls take

  // A parameter that is not passed, or one of a length that the mode takes and memory allows.
  predicate Fits(mode: Mode, p: Param) {
    p.Absent? || (p.Given? && FitsAsSecret(mode, p.secret))
  }

  predicate FitsAsSecret(mode: Mode, s: Secret) {
    (mode.CtrHbelt? ==> |s.value| == 32) && (s.value == [] || s.copied)
  }

  predicate FitsOrEmpty(mode: Mode, s: Secret) {
    s.value == [] || FitsAsSecret(mode, s)
  }

  // A key, and for CTR an IV or memory for a zero one.
  predicate HasSeed(mode: Mode, key: Option<seq<byte>>, iv: Option<seq<byte>>, zeroIvCopied: bool) {
    key.Some? && (mode.CtrHbelt? ==> iv.Some? || zeroIvCopied)
  }

  // What a parameter leaves stored.
  function Stored(p: Param, before: Option<seq<byte>>): Option<seq<byte>> {
    if p.Given? then Some(p.secret.value) else before
  }

  // The octets a stream starts with: the IV, or 32 zeros for CTR and nothing for HMAC.
  function StartingIv(mode: Mode, iv: Option<seq<byte>>): seq<byte> {
    if iv.Some? then iv.value else if mode.CtrHbelt? then Zeros(32) else []
  }

  // Parameters are taken exactly when all that are passed fit; they are then stored, and end the
  // stream.
  lemma SetParamsOutcome(c: Ctx, p: Params)
    requires c.WellFormed()
    ensures SetParams(c, p).1 <==> Fits(c.mode, p.key) && Fits(c.mode, p.iv)
    ensures var r := SetParams(c, p);
      r.1 ==> r.0 == Ctx(c.mode, Stored(p.key, c.key), Stored(p.iv, c.iv),
        if p == NO_PARAMS then c.phase else Uninitialised)
  {
  }

  // A stream that starts from nothing read, under a key and an IV.
  predicate StartsUnder(c: Ctx, key: seq<byte>, iv: seq<byte>) {
    && c.key == Some(key) && c.iv.GetOr([]) == iv
    && c.phase == Ready(Reader(Seed(c.mode, key, iv), [], 0))
  }

  // Instantiation succeeds exactly at a strength of at most 256 bits, with parameters that fit, a key
  // given or stored, and memory for a missing CTR IV; the stream is that of the key and the IV given,
  // or else of those stored.
  lemma InstantiateOutcome(c: Ctx, strength: nat, p: Params, zeroIvCopied: bool)
    requires c.WellFormed()
    ensures var key, iv := Stored(p.key, c.key), Stored(p.iv, c.iv);
      var r := Instantiate(c, strength, p, zeroIvCopied);
      && (r.1 <==>
           strength <= 256 && Fits(c.mode, p.key) && Fits(c.mode, p.iv)
           && HasSeed(c.mode, key, iv, zeroIvCopied))
      && (r.1 ==> StartsUnder(r.0, key.value, StartingIv(c.mode, iv)))
  {
    hide SetParams;
    SetParamsOutcome(c, p);
  }

  // Reseeding takes entropy for the key and additional input for the IV, unless they are empty.
  lemma ReseedOutcome(c: Ctx, entropy: Secret, addin: Secret, zeroIvCopied: bool)
    requires c.WellFormed()
    ensures var key, iv := if entropy.value == [] then c.key else Some(entropy.value),
                           if addin.value == [] then c.iv else Some(addin.value);
      var r := Reseed(c, entropy, addin, zeroIvCopied);
      && (r.1 <==>
           FitsOrEmpty(c.mode, entropy) && FitsOrEmpty(c.mode, addin) && HasSeed(c.mode, key, iv, zeroIvCopied))
      && (r.1 ==> StartsUnder(r.0, key.value, StartingIv(c.mode, iv)))
  {
  }

  // A context serves requests when it is ready, at a strength of at most 256 bits and for at most
  // 2^64 - 1 octets.
  lemma ServesWithinLimits(c: Ctx, outlen: nat, strength: nat)
    ensures Serves(c, outlen, strength) <==>
      c.phase.Ready? && strength <= 256 && outlen < 0x1_0000_0000_0000_0000
  {
  }

  // The IV parameter as a caller reads it back.
  function IvParam(h: HashAlg, c: Ctx): seq<byte>
    requires BeltHash(h) && c.WellFormed()
  {
    if c.mode.CtrHbelt? then
      if c.phase.Ready? then ChainAfter(h, c.phase.reader.seed, c.phase.reader.xs).s
      else c.iv.GetOr(Zeros(BLOCK))
    else c.iv.GetOr([])
  }

  // The CTR generator shows its IV incremented once for each block made; without a stream, and for the
  // HMAC generator, the IV that a stream would start with is shown.
  lemma IvParamCountsBlocks(h: HashAlg, c: Ctx)
    requires BeltHash(h) && c.WellFormed()
    ensures IvParam(h, c) ==
      if c.mode.CtrHbelt? && c.phase.Ready? then CounterAt(c.phase.reader.seed.iv, |c.phase.reader.xs|)
      else StartingIv(c.mode, c.iv)
  {
    if c.mode.CtrHbelt? && c.phase.Ready? {
      CounterAfter(h, c.phase.reader.seed, c.phase.reader.xs);
    }
  }

  // ---------------------------------------------------------------- runs

  datatype Command =
    | DoSetParams(params: Params)
    | DoInstantiate(strength: nat, params: Params, zeroIvCopied: bool)
    | DoUninstantiate
    | DoGenerate(outlen: nat, strength: nat, addin: seq<byte>)
    | DoReseed(entropy: Secret, addinSecret: Secret, zeroIvCopied: bool)

  function Step(c: Ctx, cmd: Command): (r: Ctx)
    requires c.WellFormed()
    ensures r.WellFormed() && r.mode == c.mode
  {
    match cmd
    case DoSetParams(p) => SetParams(c, p).0
    case DoInstantiate(strength, p, z) => Instantiate(c, strength, p, z).0
    case DoUninstantiate => Uninstantiate(c)
    case DoGenerate(outlen, strength, addin) => Generate(c, outlen, strength, addin)
    case DoReseed(entropy, addin, z) => Reseed(c, entropy, addin, z).0
  }

  function Run(c: Ctx, cmds: seq<Command>): (r: Ctx)
    requires c.WellFormed()
    ensures r.WellFormed() && r.mode == c.mode
    decreases |cmds|
  {
    if cmds == [] then c else Run(Step(c, cmds[0]), cmds[1..])
  }

  // Parameters of which the key is stored, or, there being no key among them, the IV.
  predicate TakesParams(c: Ctx, p: Params) {
    AcceptsParam(c, p.key) || (p.key.Absent? && AcceptsParam(c, p.iv))
  }

  // A command that stores a key or an IV; all others, refused ones included, store nothing. Only the
  // mode of the context matters.
  predicate Installs(c: Ctx, cmd: Command) {
    match cmd
    case DoSetParams(p) => TakesParams(c, p)
    case DoInstantiate(strength, p, _) => strength <= STRENGTH && TakesParams(c, p)
    case DoUninstantiate => false
    case DoGenerate(_, _, _) => false
    case DoReseed(entropy, addin, _) =>
      if Skipped(entropy) then !Skipped(addin) && Accepts(c, addin) else Accepts(c, entropy)
  }

  predicate NoneInstalls(c: Ctx, cmds: seq<Command>) {
    forall i :: 0 <= i < |cmds| ==> !Installs(c, cmds[i])
  }

  // Once there is a key, and an IV for CTR, runs that install nothing keep both.
  lemma {:induction false} QuietRunKeepsKeyAndIv(c: Ctx, cmds: seq<Command>)
    requires c.WellFormed() && c.key.Some? && (c.mode.CtrHbelt? ==> c.iv.Some?)
    requires NoneInstalls(c, cmds)
    ensures Run(c, cmds).key == c.key && Run(c, cmds).iv == c.iv
    decreases |cmds|
  {
    if cmds != [] {
      var next := Step(c, cmds[0]);
      assert !Installs(c, cmds[0]);
      assert next.key == c.key && next.iv == c.iv;
      forall i | 0 <= i < |cmds[1..]|
        ensures !Installs(next, cmds[1..][i])
      {
        assert !Installs(c, cmds[i + 1]);
      }
      QuietRunKeepsKeyAndIv(next, cmds[1..]);
    }
  }

  // Instantiating again without parameters, after any run that installed neither key nor IV, starts
  // the same stream over: reads, restarts, refused parameters and reseeds, and failed allocations do
  // not matter.
  lemma ReinstantiationReplays(c: Ctx, first: Command, cmds: seq<Command>, zeroIvCopied: bool)
    requires c.WellFormed() && first.DoInstantiate?
    requires Instantiate(c, first.strength, first.params, first.zeroIvCopied).1
    requires NoneInstalls(c, cmds)
    ensures var started := Step(c, first);
      Instantiate(Run(started, cmds), STRENGTH, NO_PARAMS, zeroIvCopied) == (started, true)
  {
    var started := Step(c, first);
    forall i | 0 <= i < |cmds|
      ensures !Installs(started, cmds[i])
    {
      assert !Installs(c, cmds[i]);
    }
    QuietRunKeepsKeyAndIv(started, cmds);
  }

  // A run of generate calls after instantiation reads the stream from its beginning.
  lemma {:induction false} GenerateRun(c: Ctx, requests: seq<Request>)
    requires c.WellFormed() && c.phase.Ready?
    requires forall q :: q in requests ==> q.outlen <= SIZE_MAX
    ensures Run(c, GenerateCommands(requests)) == c.(phase := Ready(AfterAll(c.phase.reader, requests)))
    decreases |requests|
  {
    var cmds := GenerateCommands(requests);
    if requests != [] {
      assert requests[0] in requests;
      assert cmds[1..] == GenerateCommands(requests[1..]);
      GenerateRun(Step(c, cmds[0]), requests[1..]);
    }
  }

  // From a successful instantiation on, generate calls of any lengths and additional inputs put out
  // the stream of the key and the IV then in force, from its first octet on and without a gap.
  lemma InstantiatedRunReadsItsStream(h: HashAlg, c: Ctx, start: Command, requests: seq<Request>)
    requires BeltHash(h) && c.WellFormed() && start.DoInstantiate?
    requires Instantiate(c, start.strength, start.params, start.zeroIvCopied).1
    requires forall q :: q in requests ==> q.outlen <= SIZE_MAX
    ensures var started := Step(c, start);
      var r, seed := Reader(Seed(c.mode, started.key.value, started.iv.GetOr([])), [], 0),
                     Seed(c.mode, started.key.value, started.iv.GetOr([]));
      && started.phase == Ready(r)
      && Run(started, GenerateCommands(requests)) == started.(phase := Ready(AfterAll(r, requests)))
      && ReadAll(h, r, requests) == Output(h, seed, AfterAll(r, requests).xs)[..TotalLength(requests)]
  {
    hide Instantiate, Output, ReadAll, AfterAll, Run, StartingIv, TotalLength, GenerateCommands, Ctx.WellFormed;
    InstantiateOutcome(c, start.strength, start.params, start.zeroIvCopied);
    var started := Step(c, start);
    var r := started.phase.reader;
    GenerateRun(started, requests);
    RequestsReadOneStream(h, r, requests);
  }

  // The octets of a slice that ends a request in the middle of block i or behind it.
  lemma BlockServed(y: seq<byte>, total: nat, i: nat, d: seq<byte>)
    requires 32 * i < total <= |y| && 32 * i + 32 <= |y| && y[32 * i..32 * i + 32] == d
    ensures var end := Min(32 * i + 32, total);
      y[..total][32 * i..end] == d[..end - 32 * i] && y[..total][..32 * i] == y[..32 * i]
  {
    var end := Min(32 * i + 32, total);
    assert y[..total][32 * i..end] == y[32 * i..end] == y[32 * i..32 * i + 32][..end - 32 * i];
  }

  // What any requests read of a CTR stream from its beginning, block by block: the digest of key,
  // counter, slice of the additional input and chaining value, cut at the last octet asked for.
  lemma CtrOctets(h: HashAlg, r: Reader, requests: seq<Request>, i: nat)
    requires BeltHash(h) && r.Valid() && r.seed.mode.CtrHbelt? && r.xs == [] && 32 * i < TotalLength(requests)
    ensures var out, xs := ReadAll(h, r, requests), AfterAll(r, requests).xs;
      var end := Min(32 * i + 32, TotalLength(requests));
      && |out| == TotalLength(requests) && i < |xs|
      && out[32 * i..end] == CtrBlock(h, r.seed.key, r.seed.iv, i, xs[i], out[..32 * i])[..end - 32 * i]
  {
    hide CtrBlock, Output, Reader.After, ReadAll, AfterAll, BeltHash, TotalLength;
    var s, total := AfterAll(r, requests), TotalLength(requests);
    RequestsReadOneStream(h, r, requests);
    var y := Output(h, r.seed, s.xs);
    CtrBlocks(h, r.seed, s.xs, i);
    BlockServed(y, total, i, y[32 * i..32 * i + 32]);
  }

  // The same of the HMAC generator: the HMAC of the chaining value and the IV, by the pads of the key.
  lemma HmacOctets(h: HashAlg, r: Reader, requests: seq<Request>, i: nat, inner: seq<byte>, outer: seq<byte>)
    requires BeltHash(h) && r.Valid() && r.seed.mode.HmacHbelt? && r.xs == [] && 32 * i < TotalLength(requests)
    requires Pad(h, r.seed.key, 0x36, inner) && Pad(h, r.seed.key, 0x5C, outer)
    ensures var out := ReadAll(h, r, requests);
      var end := Min(32 * i + 32, TotalLength(requests));
      && |out| == TotalLength(requests)
      && out[32 * i..end] == h.digest(outer + h.digest(inner
           + (HmacChain(h, inner, outer, r.seed.iv, i) + r.seed.iv)))[..end - 32 * i]
  {
    hide HmacChain, Pad, Output, Reader.After, ReadAll, AfterAll, TotalLength;
    var s, total := AfterAll(r, requests), TotalLength(requests);
    RequestsReadOneStream(h, r, requests);
    var y := Output(h, r.seed, s.xs);
    HmacBlocks(h, r.seed, s.xs, i, inner, outer);
    BlockServed(y, total, i, y[32 * i..32 * i + 32]);
  }

  // One request after instantiation: block i is made with octets 32 i to 32 i + 31 of its additional
  // input, those past the request left out and zeros in place of the missing ones.
  lemma FirstCtrRequest(h: HashAlg, r: Reader, outlen: nat, addin: seq<byte>, i: nat, x: seq<byte>)
    requires BeltHash(h) && r.Valid() && r.seed.mode.CtrHbelt? && r.xs == [] && 32 * i < outlen && |x| == 32
    requires forall j :: 0 <= j < 32 ==>
      x[j] == if 32 * i + j < |addin| && 32 * i + j < outlen then addin[32 * i + j] else 0
    ensures var out, end := r.Read(h, outlen, addin), Min(32 * i + 32, outlen);
      out[32 * i..end] == CtrBlock(h, r.seed.key, r.seed.iv, i, x, out[..32 * i])[..end - 32 * i]
  {
    hide CtrBlock, Output, AddinBlock;
    var next := r.After(outlen, addin);
    AddinBlockOctets(addin, outlen, i);
    assert next.xs[i] == AddinBlock(addin, outlen, i) == x;
    var y := Output(h, r.seed, next.xs);
    CtrBlocks(h, r.seed, next.xs, i);
    BlockServed(y, outlen, i, y[32 * i..32 * i + 32]);
  }

  // Additional input cut to 32 octets or padded with zeros to as many.
  function Padded(addin: seq<byte>): seq<byte> {
    if |addin| < 32 then addin + Zeros(32 - |addin|) else addin[..32]
  }

  lemma FirstBlock(h: HashAlg, key: seq<byte>, iv: seq<byte>, x: seq<byte>)
    requires |iv| == 32 && BeltHash(h)
    ensures CtrBlock(h, key, iv, 0, x, []) == h.digest(key + iv + x + Complement(iv))
    ensures |CtrBlock(h, key, iv, 0, x, [])| == 32
  {
    assert CounterAt(iv, 0) == iv;
  }

  // The first block after instantiation: key, IV, additional input padded to 32 octets, complemented
  // IV.
  lemma FirstCtrBlock(h: HashAlg, r: Reader, outlen: nat, addin: seq<byte>)
    requires BeltHash(h) && r.Valid() && r.seed.mode.CtrHbelt? && r.xs == [] && outlen >= 32
    ensures r.Read(h, outlen, addin)[..32]
         == h.digest(r.seed.key + r.seed.iv + Padded(addin) + Complement(r.seed.iv))
  {
    var x := Padded(addin);
    hide Reader.Read;
    FirstCtrRequest(h, r, outlen, addin, 0, x);
    FirstBlock(h, r.seed.key, r.seed.iv, x);
  }

  function GenerateCommands(requests: seq<Request>): (cmds: seq<Command>)
    ensures |cmds| == |requests|
  {
    seq(|requests|, i requires 0 <= i < |requests| => DoGenerate(requests[i].outlen, STRENGTH, requests[i].addin))
  }

  // ---------------------------------------------------------------- the key in force

  // The stored key is the key the running stream was started with.
  predicate Synced(c: Ctx) {
    c.phase.Ready? ==> c.key == Some(c.phase.reader.seed.key)
  }

  // A reseed whose entropy is taken, and is another key, but whose additional input is refused.
  predicate HalfReseeds(c: Ctx, cmd: Command) {
    && cmd.DoReseed?
    && !Skipped(cmd.entropy) && Accepts(c, cmd.entropy)
    && !Skipped(cmd.addinSecret) && !Accepts(c, cmd.addinSecret)
  }

  predicate LosesSync(c: Ctx, cmd: Command) {
    c.phase.Ready? && HalfReseeds(c, cmd) && Some(cmd.entropy.value) != c.key
  }

  // Such a reseed keeps the old stream running under a new stored key, and nothing else does.
  lemma SyncIsLostExactlyByHalfReseed(c: Ctx, cmd: Command)
    requires c.WellFormed() && Synced(c)
    ensures Synced(Step(c, cmd)) <==> !LosesSync(c, cmd)
  {
  }

  predicate NeverLosesSync(c: Ctx, cmds: seq<Command>)
    requires c.WellFormed()
    decreases |cmds|
  {
    cmds == [] || (!LosesSync(c, cmds[0]) && NeverLosesSync(Step(c, cmds[0]), cmds[1..]))
  }

  // Every state of a run is in sync exactly when no reseed of the run is half done under another key.
  lemma {:induction false} RunsStaySynced(c: Ctx, cmds: seq<Command>)
    requires c.WellFormed() && Synced(c)
    ensures NeverLosesSync(c, cmds) <==> forall n :: 0 <= n <= |cmds| ==> Synced(Run(c, cmds[..n]))
    decreases |cmds|
  {
    if cmds == [] {
      assert forall n :: 0 <= n <= |cmds| ==> cmds[..n] == [];
    } else {
      var next := Step(c, cmds[0]);
      SyncIsLostExactlyByHalfReseed(c, cmds[0]);
      RunPrefixes(c, cmds);
      if Synced(next) {
        RunsStaySynced(next, cmds[1..]);
      }
    }
  }

  // The states of a run behind its first command are those of the rest of the run.
  lemma RunPrefixes(c: Ctx, cmds: seq<Command>)
    requires c.WellFormed() && cmds != []
    ensures var next := Step(c, cmds[0]);
      (forall n :: 0 <= n <= |cmds| ==> Synced(Run(c, cmds[..n]))) <==>
      Synced(c) && Synced(next) && forall n :: 0 <= n <= |cmds[1..]| ==> Synced(Run(next, cmds[1..][..n]))
  {
    var next, rest := Step(c, cmds[0]), cmds[1..];
    forall n | 0 <= n <= |rest|
      ensures Run(c, cmds[..n + 1]) == Run(next, rest[..n])
    {
      assert cmds[..n + 1][1..] == rest[..n];
    }
    assert cmds[..0] == [] && Run(c, cmds[..0]) == c;
    assert rest[..0] == [] && Run(next, rest[..0]) == next;
    if forall n :: 0 <= n <= |cmds| ==> Synced(Run(c, cmds[..n])) {
      forall n | 0 <= n <= |rest|
        ensures Synced(Run(next, rest[..n]))
      {
        assert Synced(Run(c, cmds[..n + 1]));
      }
    }
    if Synced(c) && Synced(next) && forall n :: 0 <= n <= |rest| ==> Synced(Run(next, rest[..n])) {
      forall n | 0 <= n <= |cmds|
        ensures Synced(Run(c, cmds[..n]))
      {
        if n > 0 {
          assert Run(c, cmds[..n - 1 + 1]) == Run(next, rest[..n - 1]);
        }
      }
    }
  }

  // The stream ends or starts again, or the key it was started with is stored again.
  predicate Resyncs(c: Ctx, cmd: Command)
    requires c.phase.Ready?
  {
    match cmd
    case DoSetParams(p) => TakesParams(c, p)
    case DoInstantiate(strength, p, _) => strength <= STRENGTH && (TakesParams(c, p) || p == NO_PARAMS)
    case DoUninstantiate => true
    case DoGenerate(_, _, _) => false
    case DoReseed(entropy, addin, _) =>
      if HalfReseeds(c, cmd) then entropy.value == c.phase.reader.seed.key
      else (Skipped(entropy) || Accepts(c, entropy)) && (Skipped(addin) || Accepts(c, addin))
  }

  lemma SyncComesBackExactlyByResync(c: Ctx, cmd: Command)
    requires c.WellFormed() && !Synced(c)
    ensures Synced(Step(c, cmd)) <==> Resyncs(c, cmd)
  {
  }

  // One such run from a new context: the stored key is all ones, the stream runs under zeros.
  lemma HalfReseedExample()
    ensures exists cmds :: !Synced(Run(NewCtx(CtrHbelt), cmds))
  {
    var ones := seq(BLOCK, _ => 1 as byte);
    var start := DoInstantiate(STRENGTH, Params(Given(Secret(Zeros(BLOCK), true)), Absent), true);
    var half := DoReseed(Secret(ones, true), Secret([7], true), true);
    var c0 := NewCtx(CtrHbelt);
    var c1 := Step(c0, start);
    var c2 := Step(c1, half);
    assert Run(c2, []) == c2;
    assert [half][1..] == [] && [start, half][1..] == [half];
    assert Run(c1, [half]) == c2;
    assert Run(c0, [start, half]) == c2;
    assert c2.key.value[0] == 1 && c2.phase.reader.seed.key[0] == 0;
  }
}
