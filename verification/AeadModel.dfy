// The life of an authenticated-encryption context over values. The BELT-CHE/DWP and BASH-PRG-AE
// contexts of the provider are one machine over two kinds of backend; what the backends must
// satisfy is stated here and proved for each in BeltAead.dfy and BashPrgAe.dfy.
module AeadModel {
  import opened Bytes
  import opened Options

  // A backend: the state it starts in and what each adapter call makes of a state.
  datatype Algorithm<!S(!new)> = Algorithm(
    blank: S,
    start: (seq<byte>, seq<byte>) -> S,
    absorb: (S, seq<byte>) -> S,
    encrypt: (S, seq<byte>) -> (S, seq<byte>),
    decrypt: (S, seq<byte>) -> (S, seq<byte>),
    squeeze: S -> (S, seq<byte>),
    tagSize: nat,
    minKey: nat, maxKey: nat, minIv: nat, maxIv: nat,
    resetsOnKeyAlone: bool)
  {
    ghost predicate Valid() {
      && (forall s, x :: |encrypt(s, x).1| == |x|)
      && (forall s, x :: |decrypt(s, x).1| == |x|)
      && (forall s :: |squeeze(s).1| == tagSize)
    }

    // Decrypting what was encrypted from the same state gives it back and reaches the same state.
    ghost predicate InStep() {
      forall s, x :: decrypt(s, encrypt(s, x).1) == (encrypt(s, x).0, x)
    }

    // Where a message is cut makes no difference.
    ghost predicate Seamless() {
      && (forall s, a, b :: absorb(absorb(s, a), b) == absorb(s, a + b))
      && (forall s, a, b :: Encrypted(s, a, b) == encrypt(s, a + b))
      && (forall s :: absorb(s, []) == s && encrypt(s, []) == (s, []))
    }

    predicate KeyFits(key: seq<byte>) {
      minKey <= |key| <= maxKey
    }

    predicate IvFits(iv: seq<byte>) {
      minIv <= |iv| <= maxIv
    }

    function Encrypted(s: S, a: seq<byte>, b: seq<byte>): (S, seq<byte>) {
      var first := encrypt(s, a);
      var second := encrypt(first.0, b);
      (second.0, first.1 + second.1)
    }
  }

  // What reached the backend; a data operation also tells its direction.
  datatype Op = AdOp(x: seq<byte>) | DataOp(x: seq<byte>, enc: bool) | TagOp

  function Apply<S(!new)>(a: Algorithm<S>, s: S, op: Op): S {
    match op
    case AdOp(x) => a.absorb(s, x)
    case DataOp(x, enc) => if enc then a.encrypt(s, x).0 else a.decrypt(s, x).0
    case TagOp => a.squeeze(s).0
  }

  // The state a backend is in after some operations.
  function Replay<S(!new)>(a: Algorithm<S>, s: S, ops: seq<Op>): S {
    if ops == [] then s else Apply(a, Replay(a, s, ops[..|ops| - 1]), ops[|ops| - 1])
  }

  // No associated data after data.
  predicate AdFirst(ops: seq<Op>) {
    forall i, j :: 0 <= i < j < |ops| && ops[i].DataOp? ==> !ops[j].AdOp?
  }

  predicate HasData(ops: seq<Op>) {
    exists i :: 0 <= i < |ops| && ops[i].DataOp?
  }

  // accepted holds the operations since the context was last reset, which is what a caller counts on;
  // inBackend those since the backend was last started.
  datatype Ctx<!S(!new)> = Ctx(
    backend: S,
    key: Option<seq<byte>>, iv: Option<seq<byte>>, keyLen: nat,
    enc: bool, dataStarted: bool,
    tag: seq<byte>, tagSet: bool,
    accepted: seq<Op>, inBackend: seq<Op>)
  {
    predicate Keyed() {
      key.Some? && iv.Some?
    }

    // The flag says exactly whether there was data since the last reset, no associated data follows
    // it, and the backend holds the latest of the accepted operations, if not all.
    ghost predicate Ordered() {
      && (dataStarted <==> HasData(accepted))
      && AdFirst(accepted)
      && |inBackend| <= |accepted| && inBackend == accepted[|accepted| - |inBackend|..]
    }

    // Everything accepted since the last reset is in the backend.
    predicate Complete() {
      inBackend == accepted
    }

    function Did(op: Op): Ctx<S> {
      this.(accepted := accepted + [op], inBackend := inBackend + [op])
    }

    // The tag a final call compares with or a caller reads.
    function Tag(): Option<seq<byte>> {
      if tagSet then Some(tag) else None
    }
  }

  function NewCtx<S(!new)>(a: Algorithm<S>): Ctx<S> {
    Ctx(a.blank, None, None, a.minKey, false, false, Zeros(a.tagSize), false, [], [])
  }

  // The adapter starts the backend again whenever it has both a key and an IV.
  function Restart<S(!new)>(a: Algorithm<S>, c: Ctx<S>): Ctx<S> {
    if c.Keyed() then c.(backend := a.start(c.key.value, c.iv.value), inBackend := []) else c
  }

  function Reset<S(!new)>(a: Algorithm<S>, c: Ctx<S>): Ctx<S> {
    Restart(a, c.(dataStarted := false, tagSet := false, tag := Zeros(a.tagSize), accepted := [], inBackend := []))
  }

  function Prepare<S(!new)>(a: Algorithm<S>, c: Ctx<S>): Ctx<S> {
    if c.key.Some? && (a.resetsOnKeyAlone || c.iv.Some?) then Reset(a, c) else c
  }

  datatype Params = Params(keyLen: Option<nat>, tag: Option<seq<byte>>)
  const NO_PARAMS := Params(None, None)

  predicate TakesKeyLen<S(!new)>(a: Algorithm<S>, c: Ctx<S>, keyLen: nat) {
    a.minKey <= keyLen <= a.maxKey && (c.key.Some? ==> keyLen == |c.key.value|)
  }

  function SetParams<S(!new)>(a: Algorithm<S>, c: Ctx<S>, p: Params): (r: (Ctx<S>, bool))
    ensures r.0.(keyLen := c.keyLen, tag := c.tag, tagSet := c.tagSet) == c
    ensures r.1 && p.tag.Some? ==> r.0.Tag() == p.tag
    ensures r.1 && p.tag.None? ==> r.0.tagSet == c.tagSet && r.0.tag == c.tag
  {
    if p.keyLen.Some? && !TakesKeyLen(a, c, p.keyLen.value) then
      (c, false)
    else
      var k := if p.keyLen.Some? then c.(keyLen := p.keyLen.value) else c;
      if p.tag.None? then (k, true)
      else if |p.tag.value| != a.tagSize then (k, false)
      else (k.(tag := p.tag.value, tagSet := true), true)
  }

  function SetKey<S(!new)>(a: Algorithm<S>, c: Ctx<S>, key: Option<seq<byte>>): (r: (Ctx<S>, bool))
    ensures r.0.(key := c.key, keyLen := c.keyLen, backend := c.backend, inBackend := c.inBackend) == c
    ensures r.1 && key.Some? ==> r.0.key == key
  {
    if key.None? then (c, true)
    else if !a.KeyFits(key.value) then (c, false)
    else (Restart(a, c.(key := key, keyLen := |key.value|)), true)
  }

  function SetIv<S(!new)>(a: Algorithm<S>, c: Ctx<S>, iv: Option<seq<byte>>): (r: (Ctx<S>, bool))
    ensures r.0.(iv := c.iv, backend := c.backend, inBackend := c.inBackend) == c
    ensures r.1 && iv.Some? ==> r.0.iv == iv
  {
    if iv.None? then (c, true)
    else if !a.IvFits(iv.value) then (c, false)
    else (Restart(a, c.(iv := iv)), true)
  }

  function Init<S(!new)>(a: Algorithm<S>, c: Ctx<S>, key: Option<seq<byte>>, iv: Option<seq<byte>>, enc: bool,
      p: Params)
    : (r: (Ctx<S>, bool))
  {
    var k := SetKey(a, c.(enc := enc), key);
    if !k.1 then k
    else
      var v := SetIv(a, k.0, iv);
      if !v.1 then v
      else SetParams(a, Prepare(a, v.0), p)
  }

  // Associated data: an update without an output buffer.
  function Associate<S(!new)>(a: Algorithm<S>, c: Ctx<S>, input: seq<byte>): (Ctx<S>, bool) {
    if !c.Keyed() then (c, false)
    else if input == [] then (c, true)
    else if c.dataStarted then (c, false)
    else (c.Did(AdOp(input)).(backend := a.absorb(c.backend, input)), true)
  }

  datatype Processed<!S(!new)> = Processed(next: Ctx<S>, ok: bool, out: seq<byte>)

  function Process<S(!new)>(a: Algorithm<S>, c: Ctx<S>, input: seq<byte>, outsize: nat): (r: Processed<S>) {
    if !c.Keyed() then Processed(c, false, [])
    else if input == [] then Processed(c, true, [])
    else if outsize < |input| then Processed(c, false, [])
    else
      var r := if c.enc then a.encrypt(c.backend, input) else a.decrypt(c.backend, input);
      Processed(c.Did(DataOp(input, c.enc)).(backend := r.0, dataStarted := true), true, r.1)
  }

  // Encrypting, the tag is computed and kept; decrypting, it is compared with the expected one.
  function Final<S(!new)>(a: Algorithm<S>, c: Ctx<S>): (Ctx<S>, bool) {
    if !c.enc && !c.tagSet then (c, false)
    else
      var (s, tag) := a.squeeze(c.backend);
      var next := c.Did(TagOp).(backend := s);
      if c.enc then (next.(tag := tag, tagSet := true), true) else (next, tag == c.tag)
  }

  // ---------------------------------------------------------------- what the calls take

  // Initialisation succeeds exactly when key, IV and tag are of lengths the algorithm takes, and a key
  // length among the parameters is that of the key in force.
  lemma InitSucceeds<S(!new)>(a: Algorithm<S>, c: Ctx<S>, key: Option<seq<byte>>, iv: Option<seq<byte>>, enc: bool,
      p: Params)
    ensures var k := if key.Some? then key else c.key;
      Init(a, c, key, iv, enc, p).1 <==>
        && (key.Some? ==> a.minKey <= |key.value| <= a.maxKey)
        && (iv.Some? ==> a.minIv <= |iv.value| <= a.maxIv)
        && (p.keyLen.Some? ==> a.minKey <= p.keyLen.value <= a.maxKey)
        && (p.keyLen.Some? && k.Some? ==> p.keyLen.value == |k.value|)
        && (p.tag.Some? ==> |p.tag.value| == a.tagSize)
  {
    var d := SetKey(a, c.(enc := enc), key).0;
    var e := SetIv(a, d, iv).0;
    PrepareKeepsSettings(a, e);
    SetParamsSucceeds(a, Prepare(a, e), p);
    hide SetParams, Prepare, Restart;
  }

  lemma SetParamsSucceeds<S(!new)>(a: Algorithm<S>, c: Ctx<S>, p: Params)
    ensures SetParams(a, c, p).1 <==>
      && (p.keyLen.Some? ==> a.minKey <= p.keyLen.value <= a.maxKey)
      && (p.keyLen.Some? && c.key.Some? ==> p.keyLen.value == |c.key.value|)
      && (p.tag.Some? ==> |p.tag.value| == a.tagSize)
    ensures p.tag.None? ==> SetParams(a, c, p).0.Tag() == c.Tag()
  {
  }

  lemma PrepareKeepsSettings<S(!new)>(a: Algorithm<S>, c: Ctx<S>)
    ensures var d := Prepare(a, c);
      && d.key == c.key && d.iv == c.iv && d.enc == c.enc
      && if c.key.Some? && (a.resetsOnKeyAlone || c.iv.Some?) then
           d.accepted == [] && !d.dataStarted && d.Tag() == None
         else d.accepted == c.accepted && d.dataStarted == c.dataStarted && d.Tag() == c.Tag()
  {
  }

  // Once key and IV are taken, the message under way is given up where there is a key and, for the
  // algorithms that do not reset on a key alone, an IV; otherwise it goes on. Refused parameters do not
  // change that.
  lemma InitResets<S(!new)>(a: Algorithm<S>, c: Ctx<S>, key: Option<seq<byte>>, iv: Option<seq<byte>>, enc: bool,
      p: Params)
    requires (key.Some? ==> a.KeyFits(key.value)) && (iv.Some? ==> a.IvFits(iv.value))
    ensures var d := Init(a, c, key, iv, enc, p).0;
      && d.key == (if key.Some? then key else c.key) && d.iv == (if iv.Some? then iv else c.iv) && d.enc == enc
      && if d.key.Some? && (a.resetsOnKeyAlone || d.iv.Some?) then
           d.accepted == [] && !d.dataStarted && (p.tag.None? ==> d.Tag() == None)
         else
           d.accepted == c.accepted && d.dataStarted == c.dataStarted && (p.tag.None? ==> d.Tag() == c.Tag())
  {
    var k := SetKey(a, c.(enc := enc), key).0;
    var v := SetIv(a, k, iv).0;
    PrepareKeepsSettings(a, v);
    SetParamsSucceeds(a, Prepare(a, v), p);
    hide SetParams, Prepare, Restart;
  }

  // An update needs a key and an IV; associated data must come before data, and data needs room. What is
  // refused changes nothing, and nor does an empty update.
  lemma UpdateOutcome<S(!new)>(a: Algorithm<S>, c: Ctx<S>, x: seq<byte>, outsize: nat)
    ensures Associate(a, c, x).1 <==> c.Keyed() && (x == [] || !c.dataStarted)
    ensures Process(a, c, x, outsize).ok <==> c.Keyed() && |x| <= outsize
    ensures !Associate(a, c, x).1 || x == [] ==> Associate(a, c, x).0 == c
    ensures !Process(a, c, x, outsize).ok || x == [] ==>
      Process(a, c, x, outsize).next == c && Process(a, c, x, outsize).out == []
  {
  }

  // ---------------------------------------------------------------- runs

  datatype Command =
    | DoInit(key: Option<seq<byte>>, iv: Option<seq<byte>>, enc: bool, params: Params)
    | DoSetParams(params: Params)
    | DoAssociate(input: seq<byte>)
    | DoProcess(input: seq<byte>, outsize: nat)
    | DoFinal

  function Step<S(!new)>(a: Algorithm<S>, c: Ctx<S>, cmd: Command): Ctx<S> {
    match cmd
    case DoInit(key, iv, enc, p) => Init(a, c, key, iv, enc, p).0
    case DoSetParams(p) => SetParams(a, c, p).0
    case DoAssociate(input) => Associate(a, c, input).0
    case DoProcess(input, outsize) => Process(a, c, input, outsize).next
    case DoFinal => Final(a, c).0
  }

  function Run<S(!new)>(a: Algorithm<S>, c: Ctx<S>, cmds: seq<Command>): Ctx<S>
    decreases |cmds|
  {
    if cmds == [] then c else Run(a, Step(a, c, cmds[0]), cmds[1..])
  }

  // The backend of a keyed context is its start under key and IV followed by the operations in it.
  ghost predicate Sound<S(!new)>(a: Algorithm<S>, c: Ctx<S>) {
    c.Ordered() && (c.Keyed() ==> c.backend == Replay(a, a.start(c.key.value, c.iv.value), c.inBackend))
  }

  // In every run, failed calls and half-done initialisations included, the backend of a keyed context
  // is its start followed by the latest accepted operations, without associated data after data.
  lemma {:induction false} RunsStaySound<S(!new)>(a: Algorithm<S>, c: Ctx<S>, cmds: seq<Command>)
    requires Sound(a, c)
    ensures Sound(a, Run(a, c, cmds)) && AdFirst(Run(a, c, cmds).inBackend)
    decreases |cmds|
  {
    if cmds != [] {
      StepStaysSound(a, c, cmds[0]);
      RunsStaySound(a, Step(a, c, cmds[0]), cmds[1..]);
    }
  }

  lemma StepStaysSound<S(!new)>(a: Algorithm<S>, c: Ctx<S>, cmd: Command)
    requires Sound(a, c)
    ensures Sound(a, Step(a, c, cmd))
  {
    match cmd {
      case DoInit(key, iv, enc, p) =>
        InitOutcome(a, c, key, iv, enc, p);
        OutcomeIsSound(a, c, Init(a, c, key, iv, enc, p).0);
      case DoSetParams(p) => OutcomeIsSound(a, c, SetParams(a, c, p).0);
      case DoAssociate(input) => DidStaysSound(a, c, AdOp(input), Associate(a, c, input).0);
      case DoProcess(input, outsize) => DidStaysSound(a, c, DataOp(input, c.enc), Process(a, c, input, outsize).next);
      case DoFinal => DidStaysSound(a, c, TagOp, Final(a, c).0);
    }
  }

  lemma OutcomeIsSound<S(!new)>(a: Algorithm<S>, c: Ctx<S>, d: Ctx<S>)
    requires Sound(a, c) && (WasReset(a, d) || WasKept(c, d) || WasRestarted(a, c, d))
    ensures Sound(a, d)
  {
  }

  // The operation took place, or nothing did.
  ghost predicate Takes<S(!new)>(a: Algorithm<S>, c: Ctx<S>, op: Op, d: Ctx<S>) {
    && d.key == c.key && d.iv == c.iv
    && d.accepted == c.accepted + [op] && d.inBackend == c.inBackend + [op]
    && d.backend == Apply(a, c.backend, op)
    && d.dataStarted == (c.dataStarted || op.DataOp?) && (op.AdOp? ==> !c.dataStarted)
  }

  lemma DidStaysSound<S(!new)>(a: Algorithm<S>, c: Ctx<S>, op: Op, d: Ctx<S>)
    requires Sound(a, c) && (d == c || Takes(a, c, op, d))
    ensures Sound(a, d)
  {
    if d != c {
      DidStaysOrdered(c, op, d);
      assert d.inBackend[..|c.inBackend|] == c.inBackend;
      hide Apply;
    }
  }

  lemma DidStaysOrdered<S(!new)>(c: Ctx<S>, op: Op, d: Ctx<S>)
    requires c.Ordered() && (op.AdOp? ==> !c.dataStarted)
    requires d.accepted == c.accepted + [op] && d.inBackend == c.inBackend + [op]
    requires d.dataStarted == (c.dataStarted || op.DataOp?)
    ensures d.Ordered()
  {
    assert forall i :: 0 <= i < |c.accepted| ==> d.accepted[i] == c.accepted[i];
    assert d.accepted[|c.accepted|] == op;
    assert d.accepted[|d.accepted| - |d.inBackend|..] == d.inBackend;
  }

  ghost predicate WasReset<S(!new)>(a: Algorithm<S>, d: Ctx<S>) {
    && d.accepted == [] && d.inBackend == [] && !d.dataStarted
    && (d.Keyed() ==> d.backend == a.start(d.key.value, d.iv.value))
  }

  predicate SameAccepted<S(!new)>(c: Ctx<S>, d: Ctx<S>) {
    d.accepted == c.accepted && d.dataStarted == c.dataStarted
  }

  ghost predicate WasKept<S(!new)>(c: Ctx<S>, d: Ctx<S>) {
    && SameAccepted(c, d) && d.inBackend == c.inBackend && d.backend == c.backend
    && (d.Keyed() ==> c.Keyed() && d.key == c.key && d.iv == c.iv)
  }

  ghost predicate WasRestarted<S(!new)>(a: Algorithm<S>, c: Ctx<S>, d: Ctx<S>) {
    && SameAccepted(c, d) && d.inBackend == []
    && d.Keyed() && d.backend == a.start(d.key.value, d.iv.value)
  }

  // The key is accepted and restarts the backend of a keyed context, and then the IV is refused.
  predicate HalfDone<S(!new)>(a: Algorithm<S>, c: Ctx<S>, key: Option<seq<byte>>, iv: Option<seq<byte>>) {
    && key.Some? && a.KeyFits(key.value)
    && iv.Some? && !a.IvFits(iv.value)
    && c.iv.Some?
  }

  // A half-done initialisation restarts the backend under what was accepted before; any other one
  // resets the context or leaves the message under way alone.
  lemma InitOutcome<S(!new)>(a: Algorithm<S>, c: Ctx<S>, key: Option<seq<byte>>, iv: Option<seq<byte>>, enc: bool,
      p: Params)
    ensures var d := Init(a, c, key, iv, enc, p).0;
      if HalfDone(a, c, key, iv) then WasRestarted(a, c, d) else WasReset(a, d) || WasKept(c, d)
  {
    var k := SetKey(a, c.(enc := enc), key);
    if k.1 {
      IvOutcome(a, c, k.0, key, iv, p);
    } else {
      assert WasKept(c, k.0);
    }
  }

  lemma IvOutcome<S(!new)>(a: Algorithm<S>, c: Ctx<S>, k: Ctx<S>, key: Option<seq<byte>>, iv: Option<seq<byte>>,
      p: Params)
    requires (k, true) == SetKey(a, c.(enc := k.enc), key)
    ensures var v := SetIv(a, k, iv);
      var d := if v.1 then SetParams(a, Prepare(a, v.0), p).0 else v.0;
      if HalfDone(a, c, key, iv) then WasRestarted(a, c, d) else WasReset(a, d) || WasKept(c, d)
  {
    var v := SetIv(a, k, iv);
    if v.1 {
      PrepareOutcome(a, c, v.0);
    }
  }

  lemma PrepareOutcome<S(!new)>(a: Algorithm<S>, c: Ctx<S>, v: Ctx<S>)
    requires SameAccepted(c, v) && (!v.Keyed() ==> v.backend == c.backend && v.inBackend == c.inBackend)
    ensures WasReset(a, Prepare(a, v)) || WasKept(c, Prepare(a, v))
  {
  }

  // ---------------------------------------------------------------- half-done initialisations

  predicate Loses<S(!new)>(a: Algorithm<S>, c: Ctx<S>, cmd: Command) {
    cmd.DoInit? && HalfDone(a, c, cmd.key, cmd.iv) && c.accepted != []
  }

  lemma StepStaysComplete<S(!new)>(a: Algorithm<S>, c: Ctx<S>, cmd: Command)
    requires c.Complete()
    ensures Step(a, c, cmd).Complete() <==> !Loses(a, c, cmd)
  {
    if cmd.DoInit? {
      InitOutcome(a, c, cmd.key, cmd.iv, cmd.enc, cmd.params);
    }
  }

  predicate NeverLoses<S(!new)>(a: Algorithm<S>, c: Ctx<S>, cmds: seq<Command>)
    decreases |cmds|
  {
    cmds == [] || (!Loses(a, c, cmds[0]) && NeverLoses(a, Step(a, c, cmds[0]), cmds[1..]))
  }

  // Through a whole run the backend holds everything accepted since the last reset, exactly when no
  // initialisation of the run is half done on a context that has accepted something.
  lemma {:induction false} RunsStayComplete<S(!new)>(a: Algorithm<S>, c: Ctx<S>, cmds: seq<Command>)
    requires c.Complete()
    ensures NeverLoses(a, c, cmds) <==> forall n :: 0 <= n <= |cmds| ==> Run(a, c, cmds[..n]).Complete()
    decreases |cmds|
  {
    if cmds == [] {
      assert forall n :: 0 <= n <= |cmds| ==> cmds[..n] == [];
    } else {
      var next := Step(a, c, cmds[0]);
      StepStaysComplete(a, c, cmds[0]);
      RunPrefixes(a, c, cmds);
      if next.Complete() {
        RunsStayComplete(a, next, cmds[1..]);
      }
    }
  }

  // The states of a run behind its first command are those of the rest of the run.
  lemma RunPrefixes<S(!new)>(a: Algorithm<S>, c: Ctx<S>, cmds: seq<Command>)
    requires cmds != []
    ensures var next := Step(a, c, cmds[0]);
      (forall n :: 0 <= n <= |cmds| ==> Run(a, c, cmds[..n]).Complete()) <==>
      c.Complete() && next.Complete() && forall n :: 0 <= n <= |cmds[1..]| ==> Run(a, next, cmds[1..][..n]).Complete()
  {
    var next, rest := Step(a, c, cmds[0]), cmds[1..];
    forall n | 0 <= n <= |rest|
      ensures Run(a, c, cmds[..n + 1]) == Run(a, next, rest[..n])
    {
      assert cmds[..n + 1][1..] == rest[..n];
    }
    assert cmds[..0] == [] && Run(a, c, cmds[..0]) == c;
    assert rest[..0] == [] && Run(a, next, rest[..0]) == next;
    if forall n :: 0 <= n <= |cmds| ==> Run(a, c, cmds[..n]).Complete() {
      forall n | 0 <= n <= |rest|
        ensures Run(a, next, rest[..n]).Complete()
      {
        assert Run(a, c, cmds[..n + 1]).Complete();
      }
    }
    if next.Complete() && c.Complete() && forall n :: 0 <= n <= |rest| ==> Run(a, next, rest[..n]).Complete() {
      forall n | 0 <= n <= |cmds|
        ensures Run(a, c, cmds[..n]).Complete()
      {
        if n > 0 {
          assert Run(a, c, cmds[..n - 1 + 1]) == Run(a, next, rest[..n - 1]);
        }
      }
    }
  }

  // So from a new context, while no initialisation loses anything, the backend of a keyed context is
  // its start under key and IV followed by everything accepted since the last reset.
  lemma BackendHoldsAccepted<S(!new)>(a: Algorithm<S>, cmds: seq<Command>)
    requires NeverLoses(a, NewCtx(a), cmds)
    ensures var s := Run(a, NewCtx(a), cmds);
      s.Keyed() ==> s.backend == Replay(a, a.start(s.key.value, s.iv.value), s.accepted) && AdFirst(s.accepted)
  {
    RunsStayComplete(a, NewCtx(a), cmds);
    RunsStaySound(a, NewCtx(a), cmds);
    assert cmds[..|cmds|] == cmds;
    assert Run(a, NewCtx(a), cmds[..|cmds|]).Complete();
  }

  // ---------------------------------------------------------------- messages

  // What a caller does between initialisation and the final call, in any order.
  datatype Action = Ad(x: seq<byte>) | Data(x: seq<byte>) | Set(params: Params)

  function Perform<S(!new)>(a: Algorithm<S>, c: Ctx<S>, act: Action): Processed<S> {
    match act
    case Ad(x) => var r := Associate(a, c, x); Processed(r.0, r.1, [])
    case Data(x) => Process(a, c, x, |x|)
    case Set(p) => var r := SetParams(a, c, p); Processed(r.0, r.1, [])
  }

  // The non-empty pieces of associated data, and of data.
  function AdPieces(acts: seq<Action>): seq<seq<byte>> {
    if acts == [] then []
    else (if acts[0].Ad? && acts[0].x != [] then [acts[0].x] else []) + AdPieces(acts[1..])
  }

  function DataPieces(acts: seq<Action>): seq<seq<byte>> {
    if acts == [] then []
    else (if acts[0].Data? && acts[0].x != [] then [acts[0].x] else []) + DataPieces(acts[1..])
  }

  // The tag in force behind the actions, given the one before.
  function TagAfter(acts: seq<Action>, tag: Option<seq<byte>>): Option<seq<byte>>
    decreases |acts|
  {
    if acts == [] then tag
    else TagAfter(acts[1..], if acts[0].Set? && acts[0].params.tag.Some? then acts[0].params.tag else tag)
  }

  // No associated data after data, and parameters that fit; started tells whether there was data.
  predicate Allowed<S(!new)>(a: Algorithm<S>, key: seq<byte>, acts: seq<Action>, started: bool)
    decreases |acts|
  {
    acts == [] ||
    match acts[0]
    case Ad(x) => (x == [] || !started) && Allowed(a, key, acts[1..], started)
    case Data(x) => Allowed(a, key, acts[1..], started || x != [])
    case Set(p) => ParamsFit(a, key, p) && Allowed(a, key, acts[1..], started)
  }

  predicate ParamsFit<S(!new)>(a: Algorithm<S>, key: seq<byte>, p: Params) {
    && (p.keyLen.Some? ==> a.minKey <= p.keyLen.value <= a.maxKey && p.keyLen.value == |key|)
    && (p.tag.Some? ==> |p.tag.value| == a.tagSize)
  }

  // The context behind the actions and the pieces put out, up to the first action refused.
  datatype Outcome<!S(!new)> = Outcome(ctx: Ctx<S>, ok: bool, out: seq<seq<byte>>)

  function Feed<S(!new)>(a: Algorithm<S>, c: Ctx<S>, acts: seq<Action>): Outcome<S>
    decreases |acts|
  {
    if acts == [] then Outcome(c, true, [])
    else
      var r := Perform(a, c, acts[0]);
      if !r.ok then Outcome(r.next, false, [])
      else
        var rest := Feed(a, r.next, acts[1..]);
        Outcome(rest.ctx, rest.ok, (if r.out == [] then [] else [r.out]) + rest.out)
  }

  // A whole message through a context: the actions and the final call.
  function Message<S(!new)>(a: Algorithm<S>, c: Ctx<S>, acts: seq<Action>): Outcome<S> {
    var r := Feed(a, c, acts);
    if !r.ok then r
    else
      var f := Final(a, r.ctx);
      Outcome(f.0, f.1, r.out)
  }

  function AssociateAll<S(!new)>(a: Algorithm<S>, s: S, pieces: seq<seq<byte>>): S
    decreases |pieces|
  {
    if pieces == [] then s else AssociateAll(a, a.absorb(s, pieces[0]), pieces[1..])
  }

  // The state after encrypting pieces one by one, and the pieces of ciphertext.
  function EncryptAll<S(!new)>(a: Algorithm<S>, s: S, pieces: seq<seq<byte>>): (r: (S, seq<seq<byte>>))
    ensures |r.1| == |pieces|
    decreases |pieces|
  {
    if pieces == [] then (s, [])
    else
      var first := a.encrypt(s, pieces[0]);
      var rest := EncryptAll(a, first.0, pieces[1..]);
      (rest.0, [first.1] + rest.1)
  }

  function DecryptAll<S(!new)>(a: Algorithm<S>, s: S, pieces: seq<seq<byte>>): (r: (S, seq<seq<byte>>))
    ensures |r.1| == |pieces|
    decreases |pieces|
  {
    if pieces == [] then (s, [])
    else
      var first := a.decrypt(s, pieces[0]);
      var rest := DecryptAll(a, first.0, pieces[1..]);
      (rest.0, [first.1] + rest.1)
  }

  // Piece by piece, decryption gives the plaintext back and keeps the encryptor's state; as this
  // holds for every prefix of the pieces, the two states agree after every update.
  lemma {:induction false} LockStep<S(!new)>(a: Algorithm<S>, s: S, pieces: seq<seq<byte>>)
    requires a.InStep()
    ensures DecryptAll(a, s, EncryptAll(a, s, pieces).1) == (EncryptAll(a, s, pieces).0, pieces)
    decreases |pieces|
  {
    if pieces != [] {
      var first := a.encrypt(s, pieces[0]);
      LockStep(a, first.0, pieces[1..]);
      var cipher := EncryptAll(a, s, pieces).1;
      assert cipher[0] == first.1 && cipher[1..] == EncryptAll(a, first.0, pieces[1..]).1;
      assert [pieces[0]] + pieces[1..] == pieces;
    }
  }

  // The data pieces in the direction of a context.
  function CryptAll<S(!new)>(a: Algorithm<S>, s: S, enc: bool, pieces: seq<seq<byte>>): (S, seq<seq<byte>>) {
    if enc then EncryptAll(a, s, pieces) else DecryptAll(a, s, pieces)
  }

  // A context that has just been initialised under a key and an IV.
  ghost predicate Started<S(!new)>(a: Algorithm<S>, c: Ctx<S>) {
    c.Keyed() && !c.dataStarted && c.backend == a.start(c.key.value, c.iv.value)
  }

  // A successful initialisation that leaves key and IV set starts the context.
  lemma InitStarts<S(!new)>(a: Algorithm<S>, c: Ctx<S>, key: Option<seq<byte>>, iv: Option<seq<byte>>, enc: bool,
      p: Params)
    requires Init(a, c, key, iv, enc, p).1 && Init(a, c, key, iv, enc, p).0.Keyed()
    ensures var d := Init(a, c, key, iv, enc, p).0;
      && Started(a, d) && d.enc == enc && d.Tag() == p.tag
      && (key.Some? ==> d.key == key) && (iv.Some? ==> d.iv == iv)
  {
  }

  lemma {:induction false} NoAdOnceStarted<S(!new)>(a: Algorithm<S>, key: seq<byte>, acts: seq<Action>)
    requires Allowed(a, key, acts, true)
    ensures AdPieces(acts) == []
    decreases |acts|
  {
    if acts != [] {
      NoAdOnceStarted(a, key, acts[1..]);
    }
  }

  // What allowed actions amount to: the associated data, then the data, and the last tag set.
  ghost predicate Amounts<S(!new)>(a: Algorithm<S>, c: Ctx<S>, acts: seq<Action>, r: Outcome<S>) {
    && r.ok
    && (r.ctx.backend, r.out) == CryptAll(a, AssociateAll(a, c.backend, AdPieces(acts)), c.enc, DataPieces(acts))
    && r.ctx.enc == c.enc && r.ctx.Tag() == TagAfter(acts, c.Tag())
  }

  lemma {:induction false} FeedAmounts<S(!new)>(a: Algorithm<S>, c: Ctx<S>, acts: seq<Action>)
    requires a.Valid() && c.Keyed() && Allowed(a, c.key.value, acts, c.dataStarted)
    ensures Amounts(a, c, acts, Feed(a, c, acts))
    decreases |acts|
  {
    if acts != [] {
      var r := Perform(a, c, acts[0]);
      FeedAmounts(a, r.next, acts[1..]);
      match acts[0] {
        case Ad(x) => AdAmounts(a, c, acts, x);
        case Data(x) => DataAmounts(a, c, acts, x);
        case Set(p) => SetAmounts(a, c, acts, p);
      }
    }
  }

  lemma AdAmounts<S(!new)>(a: Algorithm<S>, c: Ctx<S>, acts: seq<Action>, x: seq<byte>)
    requires c.Keyed() && acts != [] && acts[0] == Ad(x) && (x == [] || !c.dataStarted)
    requires Amounts(a, Perform(a, c, acts[0]).next, acts[1..], Feed(a, Perform(a, c, acts[0]).next, acts[1..]))
    ensures Amounts(a, c, acts, Feed(a, c, acts))
  {
    var rest := Feed(a, Perform(a, c, acts[0]).next, acts[1..]);
    assert [] + rest.out == rest.out;
    if x == [] {
      assert [] + AdPieces(acts[1..]) == AdPieces(acts[1..]);
    } else {
      assert ([x] + AdPieces(acts[1..]))[1..] == AdPieces(acts[1..]);
    }
    assert [] + DataPieces(acts[1..]) == DataPieces(acts[1..]);
  }

  lemma DataAmounts<S(!new)>(a: Algorithm<S>, c: Ctx<S>, acts: seq<Action>, x: seq<byte>)
    requires a.Valid() && c.Keyed() && acts != [] && acts[0] == Data(x)
    requires x != [] ==> Allowed(a, c.key.value, acts[1..], true)
    requires Amounts(a, Perform(a, c, acts[0]).next, acts[1..], Feed(a, Perform(a, c, acts[0]).next, acts[1..]))
    ensures Amounts(a, c, acts, Feed(a, c, acts))
  {
    var rest := Feed(a, Perform(a, c, acts[0]).next, acts[1..]);
    assert [] + AdPieces(acts[1..]) == AdPieces(acts[1..]);
    if x == [] {
      assert [] + rest.out == rest.out;
      assert [] + DataPieces(acts[1..]) == DataPieces(acts[1..]);
    } else {
      NoAdOnceStarted(a, c.key.value, acts[1..]);
      assert |Perform(a, c, acts[0]).out| == |x|;
      assert ([x] + DataPieces(acts[1..]))[1..] == DataPieces(acts[1..]);
    }
  }

  lemma SetAmounts<S(!new)>(a: Algorithm<S>, c: Ctx<S>, acts: seq<Action>, p: Params)
    requires c.Keyed() && acts != [] && acts[0] == Set(p) && ParamsFit(a, c.key.value, p)
    requires Amounts(a, Perform(a, c, acts[0]).next, acts[1..], Feed(a, Perform(a, c, acts[0]).next, acts[1..]))
    ensures Amounts(a, c, acts, Feed(a, c, acts))
  {
    var rest := Feed(a, Perform(a, c, acts[0]).next, acts[1..]);
    assert [] + rest.out == rest.out;
    assert [] + AdPieces(acts[1..]) == AdPieces(acts[1..]);
    assert [] + DataPieces(acts[1..]) == DataPieces(acts[1..]);
  }

  // The final call of an encryptor gives the tag of the state; a decryptor's accepts exactly that tag.
  lemma MessageAmounts<S(!new)>(a: Algorithm<S>, c: Ctx<S>, acts: seq<Action>)
    requires a.Valid() && c.Keyed() && Allowed(a, c.key.value, acts, c.dataStarted)
    ensures var f := CryptAll(a, AssociateAll(a, c.backend, AdPieces(acts)), c.enc, DataPieces(acts));
      var m := Message(a, c, acts);
      && m.out == f.1
      && (c.enc ==> m.ok && m.ctx.Tag() == Some(a.squeeze(f.0).1))
      && (!c.enc ==> (m.ok <==> TagAfter(acts, c.Tag()) == Some(a.squeeze(f.0).1)))
  {
    FeedAmounts(a, c, acts);
  }

  // The two sides start under the same key and IV, and take actions that the contexts allow.
  ghost predicate Paired<S(!new)>(a: Algorithm<S>, e: Ctx<S>, d: Ctx<S>, sent: seq<Action>, received: seq<Action>) {
    && Started(a, e) && e.enc && Started(a, d) && !d.enc && e.key == d.key && e.iv == d.iv
    && Allowed(a, e.key.value, sent, false) && Allowed(a, d.key.value, received, false)
  }

  // When the non-empty pieces of associated data and of ciphertext are the same on both sides, the
  // decryptor puts out the pieces of the plaintext, and it accepts exactly when the tag in force at
  // the end, whenever it was set, is the encryptor's.
  lemma RoundTrip<S(!new)>(a: Algorithm<S>, e: Ctx<S>, d: Ctx<S>, sent: seq<Action>, received: seq<Action>)
    requires a.Valid() && a.InStep() && Paired(a, e, d, sent, received)
    requires AdPieces(received) == AdPieces(sent) && DataPieces(received) == Message(a, e, sent).out
    ensures Message(a, e, sent).ok && Message(a, e, sent).ctx.tagSet
    ensures Message(a, d, received).out == DataPieces(sent)
    ensures Message(a, d, received).ok <==> TagAfter(received, d.Tag()) == Message(a, e, sent).ctx.Tag()
  {
    MessageAmounts(a, e, sent);
    MessageAmounts(a, d, received);
    LockStep(a, AssociateAll(a, e.backend, AdPieces(sent)), DataPieces(sent));
  }

  // ---------------------------------------------------------------- cutting a message

  lemma {:induction false} SeamlessAssociate<S(!new)>(a: Algorithm<S>, s: S, pieces: seq<seq<byte>>)
    requires a.Seamless()
    ensures AssociateAll(a, s, pieces) == a.absorb(s, Concat(pieces))
    decreases |pieces|
  {
    if pieces == [] {
      assert a.absorb(s, []) == s;
    } else {
      SeamlessAssociate(a, a.absorb(s, pieces[0]), pieces[1..]);
      assert a.absorb(a.absorb(s, pieces[0]), Concat(pieces[1..])) == a.absorb(s, pieces[0] + Concat(pieces[1..]));
    }
  }

  lemma {:induction false} SeamlessEncrypt<S(!new)>(a: Algorithm<S>, s: S, pieces: seq<seq<byte>>)
    requires a.Seamless()
    ensures a.encrypt(s, Concat(pieces)) == (EncryptAll(a, s, pieces).0, Concat(EncryptAll(a, s, pieces).1))
    decreases |pieces|
  {
    if pieces == [] {
      assert a.encrypt(s, []) == (s, []);
    } else {
      var first := a.encrypt(s, pieces[0]);
      SeamlessEncrypt(a, first.0, pieces[1..]);
      assert a.Encrypted(s, pieces[0], Concat(pieces[1..])) == a.encrypt(s, pieces[0] + Concat(pieces[1..]));
      var all := EncryptAll(a, s, pieces).1;
      assert all[0] == first.1 && all[1..] == EncryptAll(a, first.0, pieces[1..]).1;
    }
  }

  lemma {:induction false} SeamlessDecrypt<S(!new)>(a: Algorithm<S>, s: S, cipher: seq<seq<byte>>, plain: seq<byte>)
    requires a.Valid() && a.InStep() && a.Seamless() && Concat(cipher) == a.encrypt(s, plain).1
    ensures DecryptAll(a, s, cipher).0 == a.encrypt(s, plain).0 && Concat(DecryptAll(a, s, cipher).1) == plain
    decreases |cipher|
  {
    if cipher == [] {
      assert |plain| == 0;
      assert a.encrypt(s, []) == (s, []);
    } else {
      var n := |cipher[0]|;
      assert |Concat(cipher)| == |plain| && n <= |plain|;
      var x, rest := plain[..n], plain[n..];
      assert x + rest == plain;
      var first := a.encrypt(s, x);
      assert a.Encrypted(s, x, rest) == a.encrypt(s, plain);
      assert first.1 + a.encrypt(first.0, rest).1 == cipher[0] + Concat(cipher[1..]);
      assert |first.1| == n;
      SumsSplit(first.1, a.encrypt(first.0, rest).1, cipher[0], Concat(cipher[1..]));
      SeamlessDecrypt(a, first.0, cipher[1..], rest);
      assert a.decrypt(s, cipher[0]) == (first.0, x);
      var all := DecryptAll(a, s, cipher).1;
      assert all[0] == x && all[1..] == DecryptAll(a, first.0, cipher[1..]).1;
    }
  }

  // Over a seamless backend the two sides may cut associated data and data in different ways.
  lemma SeamlessRoundTrip<S(!new)>(a: Algorithm<S>, e: Ctx<S>, d: Ctx<S>, sent: seq<Action>, received: seq<Action>)
    requires a.Valid() && a.InStep() && a.Seamless() && Paired(a, e, d, sent, received)
    requires Concat(AdPieces(received)) == Concat(AdPieces(sent))
    requires Concat(DataPieces(received)) == Concat(Message(a, e, sent).out)
    ensures Message(a, e, sent).ok && Message(a, e, sent).ctx.tagSet
    ensures Concat(Message(a, d, received).out) == Concat(DataPieces(sent))
    ensures Message(a, d, received).ok <==> TagAfter(received, d.Tag()) == Message(a, e, sent).ctx.Tag()
  {
    MessageAmounts(a, e, sent);
    MessageAmounts(a, d, received);
    SeamlessAssociate(a, e.backend, AdPieces(sent));
    SeamlessAssociate(a, d.backend, AdPieces(received));
    var s := AssociateAll(a, e.backend, AdPieces(sent));
    SeamlessEncrypt(a, s, DataPieces(sent));
    SeamlessDecrypt(a, s, DataPieces(received), Concat(DataPieces(sent)));
  }
}
