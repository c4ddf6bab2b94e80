// The backend of BELT-CHE and BELT-DWP (STB 34.101.31) and its adapter.
module BeltAead {
  import opened Bytes
  import opened Options
  import opened AeadModel

  // What Bee2 computes: the keystream octets of a key and an IV, the tag of the two absorbed
  // strings, and the expansion of a short key. A state is taken to be what went into it.
  datatype Primitives = Primitives(
    keystream: (seq<byte>, seq<byte>, nat) -> byte,
    tag: (seq<byte>, seq<byte>, seq<byte>, seq<byte>) -> seq<byte>,
    expandKey: seq<byte> -> seq<byte>,
    blank: State)
  {
    ghost predicate Valid() {
      forall k, v, i, m :: |tag(k, v, i, m)| == TAG_SIZE
    }
  }

  const TAG_SIZE: nat := 8
  const IV_SIZE: nat := 16

  // Associated data and ciphertext absorbed so far, and how much of the keystream is used.
  datatype State = State(key: seq<byte>, iv: seq<byte>, ad: seq<byte>, mac: seq<byte>, used: nat)

  function StepI(s: State, input: seq<byte>): State {
    s.(ad := s.ad + input)
  }

  function StepA(s: State, input: seq<byte>): State {
    s.(mac := s.mac + input)
  }

  function Keystream(p: Primitives, s: State, n: nat): (k: seq<byte>)
    ensures |k| == n
  {
    seq(n, i requires 0 <= i => p.keystream(s.key, s.iv, s.used + i))
  }

  // Encryption and decryption both mask with the next keystream octets.
  function StepE(p: Primitives, s: State, input: seq<byte>): (State, seq<byte>) {
    (s.(used := s.used + |input|), XorBytes(input, Keystream(p, s, |input|)))
  }

  function Start(p: Primitives, key: seq<byte>, iv: seq<byte>): State {
    State(if |key| == 32 then key else p.expandKey(key), iv, [], [], 0)
  }

  // The adapter encrypts and then absorbs what came out.
  function Encrypt(p: Primitives, s: State, input: seq<byte>): (State, seq<byte>) {
    var (t, y) := StepE(p, s, input);
    (StepA(t, y), y)
  }

  // It absorbs what came in and then decrypts.
  function Decrypt(p: Primitives, s: State, input: seq<byte>): (State, seq<byte>) {
    StepE(p, StepA(s, input), input)
  }

  function CheDwp(p: Primitives, keySize: nat): Algorithm<State> {
    Algorithm(p.blank,
              (key, iv) => Start(p, key, iv),
              (s, x) => StepI(s, x),
              (s, x) => Encrypt(p, s, x),
              (s, x) => Decrypt(p, s, x),
              (s: State) => (s, p.tag(s.key, s.iv, s.ad, s.mac)),
              TAG_SIZE, keySize, keySize, IV_SIZE, IV_SIZE, true)
  }

  lemma EncryptPieces(p: Primitives, s: State, a: seq<byte>, b: seq<byte>)
    ensures var (t, x) := Encrypt(p, s, a);
      var (u, y) := Encrypt(p, t, b);
      Encrypt(p, s, a + b) == (u, x + y)
  {
    var (t, x) := Encrypt(p, s, a);
    MaskedPieces(p, s, t, a, b);
    AppendAssociates(s.mac, x, Encrypt(p, t, b).1);
  }

  lemma MaskedPieces(p: Primitives, s: State, t: State, a: seq<byte>, b: seq<byte>)
    requires t.key == s.key && t.iv == s.iv && t.used == s.used + |a|
    ensures XorBytes(a + b, Keystream(p, s, |a + b|)) == XorBytes(a, Keystream(p, s, |a|)) + XorBytes(b, Keystream(p,
        t, |b|))
  {
    var k, l, n := Keystream(p, s, |a|), Keystream(p, t, |b|), Keystream(p, s, |a + b|);
    forall i | 0 <= i < |b|
      ensures n[|a| + i] == l[i]
    {
      assert s.used + (|a| + i) == t.used + i;
    }
    assert n == k + l;
    SameOctets(XorBytes(a + b, n), XorBytes(a, k) + XorBytes(b, l));
  }

  lemma AbsorbPieces(s: State, a: seq<byte>, b: seq<byte>)
    ensures StepI(StepI(s, a), b) == StepI(s, a + b)
    ensures StepI(s, []) == s && StepA(s, []) == s
  {
    assert (s.ad + a) + b == s.ad + (a + b);
    assert s.ad + [] == s.ad && s.mac + [] == s.mac;
  }

  // Encrypting then absorbing and absorbing then decrypting both absorb the ciphertext.
  lemma DecryptInverts(p: Primitives, s: State, x: seq<byte>)
    ensures Decrypt(p, s, Encrypt(p, s, x).1) == (Encrypt(p, s, x).0, x)
  {
    var y := Encrypt(p, s, x).1;
    assert Keystream(p, StepA(s, y), |y|) == Keystream(p, s, |x|);
    XorBytesCancel(x, Keystream(p, s, |x|));
  }

  // So the two sides stay in step, and where a message is cut makes no difference.
  lemma CheDwpIsSeamless(p: Primitives, keySize: nat)
    requires p.Valid()
    ensures CheDwp(p, keySize).Valid() && CheDwp(p, keySize).InStep() && CheDwp(p, keySize).Seamless()
  {
    var a := CheDwp(p, keySize);
    forall s, x
      ensures |a.encrypt(s, x).1| == |x| && |a.decrypt(s, x).1| == |x|
    {
      assert a.encrypt(s, x) == Encrypt(p, s, x) && a.decrypt(s, x) == Decrypt(p, s, x);
    }
    forall s: State
      ensures |a.squeeze(s).1| == TAG_SIZE
    {
      assert a.squeeze(s) == (s, p.tag(s.key, s.iv, s.ad, s.mac));
    }
    forall s, x
      ensures a.decrypt(s, a.encrypt(s, x).1) == (a.encrypt(s, x).0, x)
    {
      DecryptInverts(p, s, x);
    }
    forall s, x, y
      ensures a.absorb(a.absorb(s, x), y) == a.absorb(s, x + y)
    {
      AbsorbPieces(s, x, y);
    }
    forall s, x, y
      ensures a.Encrypted(s, x, y) == a.encrypt(s, x + y)
    {
      EncryptPieces(p, s, x, y);
    }
    forall s: State
      ensures a.absorb(s, []) == s && a.encrypt(s, []) == (s, [])
    {
      AbsorbPieces(s, [], []);
    }
  }

  // ---------------------------------------------------------------- what is put out and what the tag covers

  // The key in use: 32 octets, or a shorter one expanded.
  function FullKey(p: Primitives, key: seq<byte>): seq<byte> {
    if |key| == 32 then key else p.expandKey(key)
  }

  // Two octet strings masked with the keystream of a key and an IV from its beginning.
  predicate MaskedFrom(p: Primitives, key: seq<byte>, iv: seq<byte>, x: seq<byte>, y: seq<byte>) {
    |y| == |x| && forall i :: 0 <= i < |x| ==> y[i] == Xor(x[i], p.keystream(FullKey(p, key), iv, i))
  }

  lemma EncryptedState(p: Primitives, key: seq<byte>, iv: seq<byte>, ad: seq<byte>, x: seq<byte>)
    ensures var r := Encrypt(p, StepI(Start(p, key, iv), ad), x);
      && MaskedFrom(p, key, iv, x, r.1)
      && r.0 == State(FullKey(p, key), iv, ad, r.1, |x|)
  {
    hide Xor;
    assert [] + ad == ad;
    var y := Encrypt(p, StepI(Start(p, key, iv), ad), x).1;
    assert [] + y == y;
  }

  // What a backend indifferent to cutting makes of associated data and data.
  lemma PiecesTogether(p: Primitives, keySize: nat, s: State, ad: seq<seq<byte>>, data: seq<seq<byte>>)
    requires p.Valid()
    ensures var r := EncryptAll(CheDwp(p, keySize), AssociateAll(CheDwp(p, keySize), s, ad), data);
      (r.0, Concat(r.1)) == Encrypt(p, StepI(s, Concat(ad)), Concat(data))
  {
    var a := CheDwp(p, keySize);
    CheDwpIsSeamless(p, keySize);
    hide Encrypt, StepI;
    SeamlessAssociate(a, s, ad);
    SeamlessEncrypt(a, a.absorb(s, Concat(ad)), data);
  }

  // Encrypting: however the message is cut, its octets are masked with the keystream from its beginning,
  // and the tag is that of all associated data and all ciphertext.
  lemma CheDwpEncrypts(p: Primitives, keySize: nat, e: Ctx<State>, sent: seq<Action>)
    requires p.Valid() && Started(CheDwp(p, keySize), e) && e.enc
    requires Allowed(CheDwp(p, keySize), e.key.value, sent, false)
    ensures var m := Message(CheDwp(p, keySize), e, sent);
      && m.ok
      && MaskedFrom(p, e.key.value, e.iv.value, Concat(DataPieces(sent)), Concat(m.out))
      && m.ctx.Tag()
         == Some(p.tag(FullKey(p, e.key.value), e.iv.value, Concat(AdPieces(sent)), Concat(m.out)))
  {
    var a := CheDwp(p, keySize);
    CheDwpIsSeamless(p, keySize);
    MessageAmounts(a, e, sent);
    PiecesTogether(p, keySize, e.backend, AdPieces(sent), DataPieces(sent));
    EncryptedState(p, e.key.value, e.iv.value, Concat(AdPieces(sent)), Concat(DataPieces(sent)));
  }

  lemma DecryptedState(p: Primitives, key: seq<byte>, iv: seq<byte>, ad: seq<byte>, y: seq<byte>)
      returns (x: seq<byte>)
    ensures MaskedFrom(p, key, iv, y, x)
    ensures Encrypt(p, StepI(Start(p, key, iv), ad), x) == (State(FullKey(p, key), iv, ad, y, |y|), y)
  {
    hide Xor;
    var s := StepI(Start(p, key, iv), ad);
    x := XorBytes(y, Keystream(p, s, |y|));
    XorBytesCancel(y, Keystream(p, s, |y|));
    EncryptedState(p, key, iv, ad, x);
  }

  // Decrypting: however the message is cut, its octets are masked with the same keystream, and the tag it
  // is compared with is that of all associated data and all ciphertext received.
  lemma CheDwpDecrypts(p: Primitives, keySize: nat, d: Ctx<State>, received: seq<Action>)
    requires p.Valid() && Started(CheDwp(p, keySize), d) && !d.enc
    requires Allowed(CheDwp(p, keySize), d.key.value, received, false)
    ensures var m := Message(CheDwp(p, keySize), d, received);
      && MaskedFrom(p, d.key.value, d.iv.value, Concat(DataPieces(received)), Concat(m.out))
      && (m.ok <==> TagAfter(received, d.Tag()) == Some(p.tag(FullKey(p, d.key.value), d.iv.value,
           Concat(AdPieces(received)), Concat(DataPieces(received)))))
  {
    var a, ad, y := CheDwp(p, keySize), Concat(AdPieces(received)), Concat(DataPieces(received));
    CheDwpIsSeamless(p, keySize);
    MessageAmounts(a, d, received);
    SeamlessAssociate(a, d.backend, AdPieces(received));
    var x := DecryptedState(p, d.key.value, d.iv.value, ad, y);
    SeamlessDecrypt(a, AssociateAll(a, d.backend, AdPieces(received)), DataPieces(received), x);
  }

  // Initialisation takes keys of the one size of the algorithm, IVs of 16 octets and tags of 8.
  lemma CheDwpInitOutcome(p: Primitives, keySize: nat, c: Ctx<State>, key: Option<seq<byte>>, iv: Option<seq<byte>>,
      enc: bool, params: Params)
    requires c.key.Some? ==> |c.key.value| == keySize
    ensures Init(CheDwp(p, keySize), c, key, iv, enc, params).1 <==>
      && (key.Some? ==> |key.value| == keySize) && (iv.Some? ==> |iv.value| == 16)
      && (params.keyLen.Some? ==> params.keyLen.value == keySize)
      && (params.tag.Some? ==> |params.tag.value| == 8)
  {
    InitSucceeds(CheDwp(p, keySize), c, key, iv, enc, params);
  }

  // For any two ways of cutting the same associated data and the same ciphertext, the decryptor
  // recovers the plaintext, and it accepts exactly when the tag in force at the end is the encryptor's,
  // which covers all the associated data and all the ciphertext.
  lemma CheDwpRoundTrip(p: Primitives, keySize: nat, e: Ctx<State>, d: Ctx<State>, sent: seq<Action>,
      received: seq<Action>)
    requires p.Valid() && Paired(CheDwp(p, keySize), e, d, sent, received)
    requires Concat(AdPieces(received)) == Concat(AdPieces(sent))
    requires Concat(DataPieces(received)) == Concat(Message(CheDwp(p, keySize), e, sent).out)
    ensures var a := CheDwp(p, keySize);
      && Message(a, e, sent).ok && Message(a, e, sent).ctx.tagSet
      && Concat(Message(a, d, received).out) == Concat(DataPieces(sent))
      && (Message(a, d, received).ok <==> TagAfter(received, d.Tag()) == Message(a, e, sent).ctx.Tag())
      && Message(a, e, sent).ctx.Tag() == Some(p.tag(FullKey(p, e.key.value), e.iv.value,
           Concat(AdPieces(sent)), Concat(Message(a, e, sent).out)))
  {
    CheDwpIsSeamless(p, keySize);
    CheDwpEncrypts(p, keySize, e, sent);
    hide CheDwp, Message;
    SeamlessRoundTrip(CheDwp(p, keySize), e, d, sent, received);
  }

  // A run that loses its associated data: the key is given again with an IV of a wrong length. That
  // call fails, but the context has accepted x and then takes y, and the tag covers y alone.
  lemma HalfDoneInitLosesAd(p: Primitives, key: seq<byte>, iv: seq<byte>, x: seq<byte>, y: seq<byte>)
    requires p.Valid() && |iv| == IV_SIZE && x != [] && y != []
    ensures var a := CheDwp(p, |key|);
      var start, half := DoInit(Some(key), Some(iv), true, NO_PARAMS), DoInit(Some(key), Some([]), true, NO_PARAMS);
      var s := Run(a, NewCtx(a), [start, DoAssociate(x), half, DoProcess(y, |y|)]);
      && !Init(a, Run(a, NewCtx(a), [start, DoAssociate(x)]), half.key, half.iv, true, NO_PARAMS).1
      && s.accepted == [AdOp(x), DataOp(y, true)]
      && s.backend.ad == [] && s.backend.mac == Encrypt(p, Start(p, key, iv), y).1
      && Final(a, s).1 && Final(a, s).0.Tag() == Some(p.tag(FullKey(p, key), iv, [], s.backend.mac))
  {
    var a := CheDwp(p, |key|);
    var start, half := DoInit(Some(key), Some(iv), true, NO_PARAMS), DoInit(Some(key), Some([]), true, NO_PARAMS);
    var c0 := NewCtx(a);
    var c1 := Step(a, c0, start);
    var c2 := Step(a, c1, DoAssociate(x));
    var c3 := Step(a, c2, half);
    var c4 := Step(a, c3, DoProcess(y, |y|));
    assert c1.backend == Start(p, key, iv) && c1.accepted == [];
    assert c2.accepted == [AdOp(x)];
    assert c3.backend == Start(p, key, iv) && c3.accepted == [AdOp(x)];
    assert c4.accepted == [AdOp(x), DataOp(y, true)] && c4.enc;
    assert c4.backend.key == FullKey(p, key) && c4.backend.iv == iv;
    FourSteps(a, c0, [start, DoAssociate(x), half, DoProcess(y, |y|)]);
  }

  lemma FourSteps(a: Algorithm<State>, c: Ctx<State>, cmds: seq<Command>)
    requires |cmds| == 4
    ensures Run(a, c, cmds[..2]) == Step(a, Step(a, c, cmds[0]), cmds[1])
    ensures Run(a, c, cmds) == Step(a, Step(a, Run(a, c, cmds[..2]), cmds[2]), cmds[3])
  {
    var d := Step(a, c, cmds[0]);
    var e := Step(a, d, cmds[1]);
    assert cmds[..2][1..] == [cmds[1]] && [cmds[1]][1..] == [];
    assert Run(a, d, [cmds[1]]) == Run(a, e, []) == e;
    var r := cmds[1..];
    var q := r[1..];
    assert q == [cmds[2], cmds[3]] && q[1..] == [cmds[3]] && [cmds[3]][1..] == [];
    assert Run(a, c, cmds) == Run(a, d, r) == Run(a, e, q);
    var f := Step(a, e, cmds[2]);
    assert Run(a, e, q) == Run(a, f, [cmds[3]]);
    assert Run(a, f, [cmds[3]]) == Run(a, Step(a, f, cmds[3]), []);
  }
}
