// The backend of BASH-PRG-AE: the BASH sponge automaton (STB 34.101.77), octet by octet.
module BashPrgAe {
  import opened Bytes
  import opened Options
  import opened AeadModel

  const STATE_SIZE: nat := 192
  const MAX_KEY_SIZE: nat := 60
  const MAX_IV_SIZE: nat := 60

  type Cells = s: seq<byte> | |s| == STATE_SIZE witness Zeros(STATE_SIZE)

  datatype Code = DataCode | TextCode | OutCode

  // What Bee2 computes: the sponge permutation, the change that opening a command makes to the
  // state (its type code, the padding and one permutation), and the start of the automaton.
  datatype Sponge = Sponge(
    rate: nat,
    permute: Cells -> Cells,
    commit: (Code, Cells, nat) -> Cells,
    start: (seq<byte>, seq<byte>) -> State,
    blank: State)
  {
    predicate Valid() {
      0 < rate <= STATE_SIZE
    }
  }

  // The cells, and the next position within the rate.
  datatype State = State(cells: Cells, pos: nat)

  // The position as an index; a state that was never started may hold any number.
  function At(sp: Sponge, s: State): (i: nat)
    requires sp.Valid()
    ensures i < sp.rate
  {
    if s.pos < sp.rate then s.pos else 0
  }

  function Open(sp: Sponge, s: State, cmd: Code): State {
    State(sp.commit(cmd, s.cells, s.pos), 0)
  }

  // Puts an octet at the position and moves on, permuting at the end of the rate.
  function Put(sp: Sponge, s: State, x: byte): State
    requires sp.Valid()
  {
    var cells := s.cells[At(sp, s) := x];
    if At(sp, s) + 1 == sp.rate then State(sp.permute(cells), 0) else State(cells, At(sp, s) + 1)
  }

  function Here(sp: Sponge, s: State): byte
    requires sp.Valid()
  {
    s.cells[At(sp, s)]
  }

  function AbsorbStep(sp: Sponge, s: State, input: seq<byte>): State
    requires sp.Valid()
    decreases |input|
  {
    if input == [] then s
    else AbsorbStep(sp, Put(sp, s, Xor(Here(sp, s), input[0])), input[1..])
  }

  // The ciphertext octet takes the place of the state octet that masked the plaintext.
  function EncryptStep(sp: Sponge, s: State, input: seq<byte>): (r: (State, seq<byte>))
    requires sp.Valid()
    ensures |r.1| == |input|
    decreases |input|
  {
    if input == [] then (s, [])
    else
      var y := Xor(input[0], Here(sp, s));
      var rest := EncryptStep(sp, Put(sp, s, y), input[1..]);
      (rest.0, [y] + rest.1)
  }

  // The plaintext octet is recovered and then combined with the state octet.
  function DecryptStep(sp: Sponge, s: State, input: seq<byte>): (r: (State, seq<byte>))
    requires sp.Valid()
    ensures |r.1| == |input|
    decreases |input|
  {
    if input == [] then (s, [])
    else
      var x := Xor(input[0], Here(sp, s));
      var rest := DecryptStep(sp, Put(sp, s, Xor(Here(sp, s), x)), input[1..]);
      (rest.0, [x] + rest.1)
  }

  function SqueezeStep(sp: Sponge, s: State, n: nat): (r: (State, seq<byte>))
    requires sp.Valid()
    ensures |r.1| == n
    decreases n
  {
    if n == 0 then (s, [])
    else
      var y := Here(sp, s);
      var rest := SqueezeStep(sp, Put(sp, s, y), n - 1);
      (rest.0, [y] + rest.1)
  }

  function PrgAe(sp: Sponge, minKey: nat, tagSize: nat): Algorithm<State>
    requires sp.Valid()
  {
    Algorithm(sp.blank,
              (key, iv) => sp.start(iv, key),
              (s: State, x: seq<byte>) => AbsorbStep(sp, Open(sp, s, DataCode), x),
              (s: State, x: seq<byte>) => EncryptStep(sp, Open(sp, s, TextCode), x),
              (s: State, x: seq<byte>) => DecryptStep(sp, Open(sp, s, TextCode), x),
              (s: State) => SqueezeStep(sp, Open(sp, s, OutCode), tagSize),
              tagSize, minKey, MAX_KEY_SIZE, 0, MAX_IV_SIZE, false)
  }

  // Octet by octet, across any number of permutations, decryption recovers the plaintext and
  // leaves the state that encryption left.
  lemma {:induction false} StepsInStep(sp: Sponge, s: State, x: seq<byte>)
    requires sp.Valid()
    ensures DecryptStep(sp, s, EncryptStep(sp, s, x).1) == (EncryptStep(sp, s, x).0, x)
    decreases |x|
  {
    if x != [] {
      var k := Here(sp, s);
      var y := Xor(x[0], k);
      XorCancel(x[0], k);
      XorCommutes(x[0], k);
      assert Xor(k, x[0]) == y;
      StepsInStep(sp, Put(sp, s, y), x[1..]);
      var cipher := EncryptStep(sp, s, x).1;
      assert cipher[0] == y && cipher[1..] == EncryptStep(sp, Put(sp, s, y), x[1..]).1;
      assert [x[0]] + x[1..] == x;
    }
  }

  lemma PrgAeIsInStep(sp: Sponge, minKey: nat, tagSize: nat)
    requires sp.Valid()
    ensures PrgAe(sp, minKey, tagSize).Valid() && PrgAe(sp, minKey, tagSize).InStep()
  {
    var a := PrgAe(sp, minKey, tagSize);
    forall s, x
      ensures a.decrypt(s, a.encrypt(s, x).1) == (a.encrypt(s, x).0, x)
    {
      StepsInStep(sp, Open(sp, s, TextCode), x);
    }
  }

  // With the same key and IV, and the same non-empty pieces on both sides, decryption returns the
  // plaintext piece by piece, and it accepts exactly when the tag in force at the end, whenever it was
  // set, is the encryptor's.
  lemma PrgAeRoundTrip(sp: Sponge, minKey: nat, tagSize: nat, e: Ctx<State>, d: Ctx<State>,
      sent: seq<Action>, received: seq<Action>)
    requires sp.Valid() && Paired(PrgAe(sp, minKey, tagSize), e, d, sent, received)
    requires AdPieces(received) == AdPieces(sent)
    requires DataPieces(received) == Message(PrgAe(sp, minKey, tagSize), e, sent).out
    ensures var a := PrgAe(sp, minKey, tagSize);
      && Message(a, e, sent).ok && Message(a, e, sent).ctx.tagSet
      && Message(a, d, received).out == DataPieces(sent)
      && (Message(a, d, received).ok <==> TagAfter(received, d.Tag()) == Message(a, e, sent).ctx.Tag())
  {
    PrgAeIsInStep(sp, minKey, tagSize);
    RoundTrip(PrgAe(sp, minKey, tagSize), e, d, sent, received);
  }

  // ---------------------------------------------------------------- the automaton by whole blocks

  // The cells with octets in the place of those from a position on.
  function Over(c: Cells, pos: nat, y: seq<byte>): Cells
    requires pos + |y| <= STATE_SIZE
  {
    c[..pos] + y + c[pos + |y|..]
  }

  // Octets combined with the cells from a position on.
  function Combined(c: Cells, pos: nat, x: seq<byte>): (y: seq<byte>)
    requires pos + |x| <= STATE_SIZE
    ensures |y| == |x|
  {
    XorBytes(x, c[pos..pos + |x|])
  }

  // Every rate octets of input are combined with the front of the state, which is then permuted; the
  // octets left over stop within the rate.
  function AbsorbBlocks(sp: Sponge, c: Cells, x: seq<byte>): State
    requires sp.Valid()
    decreases |x|
  {
    if |x| < sp.rate then State(Over(c, 0, Combined(c, 0, x)), |x|)
    else AbsorbBlocks(sp, sp.permute(Over(c, 0, Combined(c, 0, x[..sp.rate]))), x[sp.rate..])
  }

  // The same for text, of which the combined octets are the ciphertext.
  function EncryptBlocks(sp: Sponge, c: Cells, x: seq<byte>): (State, seq<byte>)
    requires sp.Valid()
    decreases |x|
  {
    if |x| < sp.rate then (State(Over(c, 0, Combined(c, 0, x)), |x|), Combined(c, 0, x))
    else
      var y := Combined(c, 0, x[..sp.rate]);
      var rest := EncryptBlocks(sp, sp.permute(Over(c, 0, y)), x[sp.rate..]);
      (rest.0, y + rest.1)
  }

  // Output is the front of the state, permuted after every rate octets.
  function SqueezeBlocks(sp: Sponge, c: Cells, n: nat): seq<byte>
    requires sp.Valid()
    decreases n
  {
    if n < sp.rate then c[..n] else c[..sp.rate] + SqueezeBlocks(sp, sp.permute(c), n - sp.rate)
  }

  lemma OverStep(c: Cells, pos: nat, x: seq<byte>)
    requires x != [] && pos + |x| <= STATE_SIZE
    ensures var d := c[pos := Xor(x[0], c[pos])];
      && Over(d, pos + 1, Combined(d, pos + 1, x[1..])) == Over(c, pos, Combined(c, pos, x))
      && Combined(c, pos, x) == [Xor(x[0], c[pos])] + Combined(d, pos + 1, x[1..])
  {
    hide Xor;
    var d := c[pos := Xor(x[0], c[pos])];
    SameOctets(Combined(c, pos, x), [Xor(x[0], c[pos])] + Combined(d, pos + 1, x[1..]));
    SameOctets(Over(d, pos + 1, Combined(d, pos + 1, x[1..])), Over(c, pos, Combined(c, pos, x)));
  }

  // n octets further on, from a position within the rate.
  function Moved(sp: Sponge, c: Cells, pos: nat): State
    requires sp.Valid() && pos <= sp.rate
  {
    if pos == sp.rate then State(sp.permute(c), 0) else State(c, pos)
  }

  // Octets that do not pass the end of the rate take one combination, and those behind come after it.
  lemma {:induction false} AbsorbRun(sp: Sponge, c: Cells, pos: nat, x: seq<byte>, rest: seq<byte>)
    requires sp.Valid() && x != [] && pos + |x| <= sp.rate
    ensures AbsorbStep(sp, State(c, pos), x + rest)
         == AbsorbStep(sp, Moved(sp, Over(c, pos, Combined(c, pos, x)), pos + |x|), rest)
    decreases |x|
  {
    hide Xor, Over, Combined;
    XorCommutes(x[0], c[pos]);
    OverStep(c, pos, x);
    assert (x + rest)[1..] == x[1..] + rest;
    var d := c[pos := Xor(x[0], c[pos])];
    if |x| > 1 {
      AbsorbRun(sp, d, pos + 1, x[1..], rest);
    } else {
      assert x[1..] + rest == rest;
      OverNothing(d, pos + 1, x[1..]);
    }
  }

  lemma OverNothing(c: Cells, pos: nat, x: seq<byte>)
    requires pos <= STATE_SIZE && x == []
    ensures Over(c, pos, Combined(c, pos, x)) == c
  {
  }

  lemma {:induction false} AbsorbByBlocks(sp: Sponge, c: Cells, x: seq<byte>)
    requires sp.Valid()
    ensures AbsorbStep(sp, State(c, 0), x) == AbsorbBlocks(sp, c, x)
    decreases |x|
  {
    hide Over, Combined;
    if x == [] {
      OverNothing(c, 0, x);
    } else if |x| < sp.rate {
      AbsorbRun(sp, c, 0, x, []);
      assert x + [] == x;
    } else {
      AbsorbRun(sp, c, 0, x[..sp.rate], x[sp.rate..]);
      assert x[..sp.rate] + x[sp.rate..] == x;
      AbsorbByBlocks(sp, sp.permute(Over(c, 0, Combined(c, 0, x[..sp.rate]))), x[sp.rate..]);
    }
  }

  lemma EncryptFirst(sp: Sponge, c: Cells, pos: nat, x: seq<byte>)
    requires sp.Valid() && x != [] && pos < sp.rate
    ensures var y := Xor(x[0], c[pos]);
      var r := EncryptStep(sp, Moved(sp, c[pos := y], pos + 1), x[1..]);
      EncryptStep(sp, State(c, pos), x) == (r.0, [y] + r.1)
  {
    hide Xor;
  }

  lemma {:induction false} EncryptRun(sp: Sponge, c: Cells, pos: nat, x: seq<byte>, rest: seq<byte>)
    requires sp.Valid() && x != [] && pos + |x| <= sp.rate
    ensures var y := Combined(c, pos, x);
      var r := EncryptStep(sp, Moved(sp, Over(c, pos, y), pos + |x|), rest);
      EncryptStep(sp, State(c, pos), x + rest) == (r.0, y + r.1)
    decreases |x|
  {
    hide Xor, Over, Combined, EncryptStep;
    OverStep(c, pos, x);
    assert (x + rest)[1..] == x[1..] + rest && (x + rest)[0] == x[0];
    EncryptFirst(sp, c, pos, x + rest);
    var y0 := Xor(x[0], c[pos]);
    var d, ys := c[pos := y0], Combined(c[pos := y0], pos + 1, x[1..]);
    if |x| > 1 {
      assert Moved(sp, d, pos + 1) == State(d, pos + 1);
      EncryptRun(sp, d, pos + 1, x[1..], rest);
    } else {
      assert x[1..] + rest == rest;
      OverNothing(d, pos + 1, x[1..]);
    }
    var next := EncryptStep(sp, Moved(sp, Over(d, pos + 1, ys), pos + |x|), rest).1;
    AppendNothing(next);
    AppendAssociates([y0], ys, next);
  }

  lemma {:induction false} EncryptByBlocks(sp: Sponge, c: Cells, x: seq<byte>)
    requires sp.Valid()
    ensures EncryptStep(sp, State(c, 0), x) == EncryptBlocks(sp, c, x)
    decreases |x|
  {
    hide Over, Combined;
    if x == [] {
      OverNothing(c, 0, x);
    } else if |x| < sp.rate {
      EncryptRun(sp, c, 0, x, []);
      AppendNothing(x);
      AppendNothing(Combined(c, 0, x));
    } else {
      EncryptRun(sp, c, 0, x[..sp.rate], x[sp.rate..]);
      assert x[..sp.rate] + x[sp.rate..] == x;
      EncryptByBlocks(sp, sp.permute(Over(c, 0, Combined(c, 0, x[..sp.rate]))), x[sp.rate..]);
    }
  }

  lemma SqueezeFirst(sp: Sponge, c: Cells, pos: nat, n: nat)
    requires sp.Valid() && n > 0 && pos < sp.rate
    ensures SqueezeStep(sp, State(c, pos), n).1 == [c[pos]] + SqueezeStep(sp, Moved(sp, c, pos + 1), n - 1).1
  {
    assert c[pos := c[pos]] == c;
  }

  lemma {:induction false} SqueezeRun(sp: Sponge, c: Cells, pos: nat, end: nat, m: nat, total: nat)
    requires sp.Valid() && pos < end <= sp.rate && total == end - pos + m
    ensures SqueezeStep(sp, State(c, pos), total).1 == c[pos..end] + SqueezeStep(sp, Moved(sp, c, end), m).1
    decreases end - pos
  {
    hide SqueezeStep;
    SqueezeFirst(sp, c, pos, total);
    var next := pos + 1;
    assert c[pos..end] == [c[pos]] + c[next..end];
    if next < end {
      SqueezeRun(sp, c, next, end, m, total - 1);
      AppendAssociates([c[pos]], c[next..end], SqueezeStep(sp, Moved(sp, c, end), m).1);
    }
  }

  lemma {:induction false} SqueezeByBlocks(sp: Sponge, c: Cells, n: nat)
    requires sp.Valid()
    ensures SqueezeStep(sp, State(c, 0), n).1 == SqueezeBlocks(sp, c, n)
    decreases n
  {
    if 0 < n < sp.rate {
      SqueezeRun(sp, c, 0, n, 0, n);
      AppendNothing(c[0..n]);
    } else if n >= sp.rate {
      SqueezeRun(sp, c, 0, sp.rate, n - sp.rate, n);
      SqueezeByBlocks(sp, sp.permute(c), n - sp.rate);
    }
  }

  // ---------------------------------------------------------------- what is put out

  // Each piece of associated data is a command of its own.
  function AdBlocks(sp: Sponge, s: State, pieces: seq<seq<byte>>): State
    requires sp.Valid()
    decreases |pieces|
  {
    if pieces == [] then s
    else AdBlocks(sp, AbsorbBlocks(sp, sp.commit(DataCode, s.cells, s.pos), pieces[0]), pieces[1..])
  }

  // So is each piece of text; the pieces of ciphertext come with the state.
  function TextBlocks(sp: Sponge, s: State, pieces: seq<seq<byte>>): (r: (State, seq<seq<byte>>))
    requires sp.Valid()
    decreases |pieces|
  {
    if pieces == [] then (s, [])
    else
      var first := EncryptBlocks(sp, sp.commit(TextCode, s.cells, s.pos), pieces[0]);
      var rest := TextBlocks(sp, first.0, pieces[1..]);
      (rest.0, [first.1] + rest.1)
  }

  function TagBlocks(sp: Sponge, s: State, tagSize: nat): seq<byte>
    requires sp.Valid()
  {
    SqueezeBlocks(sp, sp.commit(OutCode, s.cells, s.pos), tagSize)
  }

  lemma {:induction false} AssociateByBlocks(sp: Sponge, minKey: nat, tagSize: nat, s: State, pieces: seq<seq<byte>>)
    requires sp.Valid()
    ensures AssociateAll(PrgAe(sp, minKey, tagSize), s, pieces) == AdBlocks(sp, s, pieces)
    decreases |pieces|
  {
    if pieces != [] {
      AbsorbByBlocks(sp, sp.commit(DataCode, s.cells, s.pos), pieces[0]);
      AssociateByBlocks(sp, minKey, tagSize, PrgAe(sp, minKey, tagSize).absorb(s, pieces[0]), pieces[1..]);
    }
  }

  lemma {:induction false} TextByBlocks(sp: Sponge, minKey: nat, tagSize: nat, s: State, pieces: seq<seq<byte>>)
    requires sp.Valid()
    ensures EncryptAll(PrgAe(sp, minKey, tagSize), s, pieces) == TextBlocks(sp, s, pieces)
    decreases |pieces|
  {
    if pieces != [] {
      EncryptByBlocks(sp, sp.commit(TextCode, s.cells, s.pos), pieces[0]);
      TextByBlocks(sp, minKey, tagSize, PrgAe(sp, minKey, tagSize).encrypt(s, pieces[0]).0, pieces[1..]);
    }
  }

  // Encrypting: from the start under IV and key, the associated data is absorbed, the text encrypted and
  // the tag squeezed out, each piece as a command of its kind.
  lemma PrgAeEncrypts(sp: Sponge, minKey: nat, tagSize: nat, e: Ctx<State>, sent: seq<Action>)
    requires sp.Valid() && Started(PrgAe(sp, minKey, tagSize), e) && e.enc
    requires Allowed(PrgAe(sp, minKey, tagSize), e.key.value, sent, false)
    ensures var m := Message(PrgAe(sp, minKey, tagSize), e, sent);
      var t := TextBlocks(sp, AdBlocks(sp, sp.start(e.iv.value, e.key.value), AdPieces(sent)), DataPieces(sent));
      m.ok && m.out == t.1 && m.ctx.Tag() == Some(TagBlocks(sp, t.0, tagSize))
  {
    var a := PrgAe(sp, minKey, tagSize);
    PrgAeIsInStep(sp, minKey, tagSize);
    MessageAmounts(a, e, sent);
    AssociateByBlocks(sp, minKey, tagSize, e.backend, AdPieces(sent));
    var s := AdBlocks(sp, e.backend, AdPieces(sent));
    TextByBlocks(sp, minKey, tagSize, s, DataPieces(sent));
    var t := TextBlocks(sp, s, DataPieces(sent)).0;
    SqueezeByBlocks(sp, sp.commit(OutCode, t.cells, t.pos), tagSize);
  }

  lemma {:induction false} StepsInStepBack(sp: Sponge, s: State, y: seq<byte>)
    requires sp.Valid()
    ensures EncryptStep(sp, s, DecryptStep(sp, s, y).1) == (DecryptStep(sp, s, y).0, y)
    decreases |y|
  {
    if y != [] {
      var k := Here(sp, s);
      var x := Xor(y[0], k);
      XorCancel(y[0], k);
      XorCommutes(y[0], k);
      XorCommutes(x, k);
      StepsInStepBack(sp, Put(sp, s, Xor(k, x)), y[1..]);
      var plain := DecryptStep(sp, s, y).1;
      assert plain[0] == x && plain[1..] == DecryptStep(sp, Put(sp, s, Xor(k, x)), y[1..]).1;
      assert [y[0]] + y[1..] == y;
    }
  }

  lemma PrgAeIsInStepBack(sp: Sponge, minKey: nat, tagSize: nat, s: State, y: seq<byte>)
    requires sp.Valid()
    ensures var a := PrgAe(sp, minKey, tagSize);
      a.encrypt(s, a.decrypt(s, y).1) == (a.decrypt(s, y).0, y)
  {
    StepsInStepBack(sp, Open(sp, s, TextCode), y);
  }

  lemma {:induction false} DecryptedText(sp: Sponge, minKey: nat, tagSize: nat, s: State, pieces: seq<seq<byte>>)
    requires sp.Valid()
    ensures var r := DecryptAll(PrgAe(sp, minKey, tagSize), s, pieces);
      EncryptAll(PrgAe(sp, minKey, tagSize), s, r.1) == (r.0, pieces)
    decreases |pieces|
  {
    hide PrgAe;
    var a := PrgAe(sp, minKey, tagSize);
    if pieces != [] {
      PrgAeIsInStepBack(sp, minKey, tagSize, s, pieces[0]);
      var first := a.decrypt(s, pieces[0]);
      DecryptedText(sp, minKey, tagSize, first.0, pieces[1..]);
      var plain := DecryptAll(a, s, pieces).1;
      assert plain[0] == first.1 && plain[1..] == DecryptAll(a, first.0, pieces[1..]).1;
      assert [pieces[0]] + pieces[1..] == pieces;
    }
  }

  // Decrypting: what is put out is the text that encrypts to the pieces received, and the tag compared with
  // is that of such an encryption.
  lemma PrgAeDecrypts(sp: Sponge, minKey: nat, tagSize: nat, d: Ctx<State>, received: seq<Action>)
    requires sp.Valid() && Started(PrgAe(sp, minKey, tagSize), d) && !d.enc
    requires Allowed(PrgAe(sp, minKey, tagSize), d.key.value, received, false)
    ensures var m := Message(PrgAe(sp, minKey, tagSize), d, received);
      var t := TextBlocks(sp, AdBlocks(sp, sp.start(d.iv.value, d.key.value), AdPieces(received)), m.out);
      && t.1 == DataPieces(received)
      && (m.ok <==> TagAfter(received, d.Tag()) == Some(TagBlocks(sp, t.0, tagSize)))
  {
    var a := PrgAe(sp, minKey, tagSize);
    PrgAeIsInStep(sp, minKey, tagSize);
    MessageAmounts(a, d, received);
    AssociateByBlocks(sp, minKey, tagSize, d.backend, AdPieces(received));
    var s := AdBlocks(sp, d.backend, AdPieces(received));
    DecryptedText(sp, minKey, tagSize, s, DataPieces(received));
    var plain := DecryptAll(a, s, DataPieces(received)).1;
    TextByBlocks(sp, minKey, tagSize, s, plain);
    var t := TextBlocks(sp, s, plain).0;
    SqueezeByBlocks(sp, sp.commit(OutCode, t.cells, t.pos), tagSize);
  }

  // Initialisation takes keys from the least size of the algorithm up to 60 octets, IVs of at most 60, and
  // tags of the size of the algorithm.
  lemma PrgAeInitOutcome(sp: Sponge, minKey: nat, tagSize: nat, c: Ctx<State>, key: Option<seq<byte>>,
      iv: Option<seq<byte>>, enc: bool, params: Params)
    requires sp.Valid()
    ensures var k := if key.Some? then key else c.key;
      Init(PrgAe(sp, minKey, tagSize), c, key, iv, enc, params).1 <==>
        && (key.Some? ==> minKey <= |key.value| <= 60) && (iv.Some? ==> |iv.value| <= 60)
        && (params.keyLen.Some? ==> minKey <= params.keyLen.value <= 60)
        && (params.keyLen.Some? && k.Some? ==> params.keyLen.value == |k.value|)
        && (params.tag.Some? ==> |params.tag.value| == tagSize)
  {
    InitSucceeds(PrgAe(sp, minKey, tagSize), c, key, iv, enc, params);
  }

  // ---------------------------------------------------------------- sponges that count pieces

  const MARK: nat := 2

  function Marked(s: State): byte {
    s.cells[MARK]
  }

  // Opening a command complements one octet of the state.
  ghost predicate Flips(sp: Sponge) {
    && sp.Valid() && sp.rate > MARK
    && forall code, c: Cells, pos :: sp.commit(code, c, pos)[MARK] == 255 - c[MARK]
  }

  function Flip(code: Code, c: Cells, pos: nat): Cells {
    c[MARK := 255 - c[MARK]]
  }

  lemma SomeSpongeFlips(rate: nat, zero: State)
    requires MARK < rate <= STATE_SIZE
    ensures Flips(Sponge(rate, (c: Cells) => c, (code: Code, c: Cells, pos: nat) => Flip(code, c, pos),
                         (iv: seq<byte>, key: seq<byte>) => zero, zero))
  {
  }

  // The octet after n more commands.
  function Flipped(b: byte, n: nat): byte {
    if n == 0 then b else 255 - Flipped(b, n - 1)
  }

  lemma {:induction false} FlippedTwice(b: byte, m: nat, n: nat)
    ensures Flipped(Flipped(b, m), n) == Flipped(b, m + n)
    decreases n
  {
    if n > 0 {
      FlippedTwice(b, m, n - 1);
    }
  }

  lemma {:induction false} AbsorbKeepsMark(sp: Sponge, s: State, x: seq<byte>)
    requires Flips(sp) && s.pos + |x| <= MARK
    ensures AbsorbStep(sp, s, x).cells[MARK] == s.cells[MARK]
    decreases |x|
  {
    if x != [] {
      AbsorbKeepsMark(sp, Put(sp, s, Xor(Here(sp, s), x[0])), x[1..]);
    }
  }

  lemma {:induction false} EncryptKeepsMark(sp: Sponge, s: State, x: seq<byte>)
    requires Flips(sp) && s.pos + |x| <= MARK
    ensures EncryptStep(sp, s, x).0.cells[MARK] == s.cells[MARK]
    decreases |x|
  {
    if x != [] {
      EncryptKeepsMark(sp, Put(sp, s, Xor(x[0], Here(sp, s))), x[1..]);
    }
  }

  lemma {:induction false} DecryptKeepsMark(sp: Sponge, s: State, x: seq<byte>)
    requires Flips(sp) && s.pos + |x| <= MARK
    ensures DecryptStep(sp, s, x).0.cells[MARK] == s.cells[MARK]
    decreases |x|
  {
    if x != [] {
      DecryptKeepsMark(sp, Put(sp, s, Xor(Here(sp, s), Xor(x[0], Here(sp, s)))), x[1..]);
    }
  }

  lemma {:induction false} SqueezeShows(sp: Sponge, s: State, n: nat, i: nat)
    requires sp.Valid() && s.pos + n <= sp.rate && i < n
    ensures SqueezeStep(sp, s, n).1[i] == s.cells[s.pos + i]
    decreases n
  {
    if i > 0 {
      SqueezeShows(sp, Put(sp, s, Here(sp, s)), n - 1, i - 1);
    }
  }

  // Every operation on a short piece complements the octet...
  ghost predicate CountsPieces(a: Algorithm<State>) {
    && (forall s, x :: |x| <= MARK ==> Marked(a.absorb(s, x)) == 255 - Marked(s))
    && (forall s, x :: |x| <= MARK ==> Marked(a.encrypt(s, x).0) == 255 - Marked(s))
    && (forall s, x :: |x| <= MARK ==> Marked(a.decrypt(s, x).0) == 255 - Marked(s))
  }

  // ... and the tag shows it complemented once more.
  ghost predicate CountsInTag(a: Algorithm<State>) {
    forall s :: |a.squeeze(s).1| > MARK && a.squeeze(s).1[MARK] == 255 - Marked(s)
  }

  ghost predicate Counts(a: Algorithm<State>) {
    a.Valid() && CountsPieces(a) && CountsInTag(a)
  }

  lemma FlippingSpongeCounts(sp: Sponge, minKey: nat, tagSize: nat)
    requires Flips(sp) && MARK < tagSize <= sp.rate
    ensures Counts(PrgAe(sp, minKey, tagSize))
  {
    PrgAeIsInStep(sp, minKey, tagSize);
    FlippingSpongeCountsPieces(sp, minKey, tagSize);
    FlippingSpongeCountsInTag(sp, minKey, tagSize);
  }

  lemma FlippingSpongeCountsPieces(sp: Sponge, minKey: nat, tagSize: nat)
    requires Flips(sp)
    ensures CountsPieces(PrgAe(sp, minKey, tagSize))
  {
    var a := PrgAe(sp, minKey, tagSize);
    forall s: State, x: seq<byte> | |x| <= MARK
      ensures Marked(a.absorb(s, x)) == 255 - Marked(s)
      ensures Marked(a.encrypt(s, x).0) == 255 - Marked(s)
      ensures Marked(a.decrypt(s, x).0) == 255 - Marked(s)
    {
      OneCommandFlips(sp, s, x);
    }
  }

  lemma FlippingSpongeCountsInTag(sp: Sponge, minKey: nat, tagSize: nat)
    requires Flips(sp) && MARK < tagSize <= sp.rate
    ensures CountsInTag(PrgAe(sp, minKey, tagSize))
  {
    var a := PrgAe(sp, minKey, tagSize);
    forall s: State
      ensures |a.squeeze(s).1| > MARK && a.squeeze(s).1[MARK] == 255 - Marked(s)
    {
      SqueezeShows(sp, Open(sp, s, OutCode), tagSize, MARK);
    }
  }

  lemma OneCommandFlips(sp: Sponge, s: State, x: seq<byte>)
    requires Flips(sp) && |x| <= MARK
    ensures Marked(AbsorbStep(sp, Open(sp, s, DataCode), x)) == 255 - Marked(s)
    ensures Marked(EncryptStep(sp, Open(sp, s, TextCode), x).0) == 255 - Marked(s)
    ensures Marked(DecryptStep(sp, Open(sp, s, TextCode), x).0) == 255 - Marked(s)
  {
    AbsorbKeepsMark(sp, Open(sp, s, DataCode), x);
    EncryptKeepsMark(sp, Open(sp, s, TextCode), x);
    DecryptKeepsMark(sp, Open(sp, s, TextCode), x);
  }

  predicate Short(pieces: seq<seq<byte>>) {
    forall i :: 0 <= i < |pieces| ==> |pieces[i]| <= MARK
  }

  lemma {:induction false} AssociateCounts(a: Algorithm<State>, s: State, pieces: seq<seq<byte>>)
    requires Counts(a) && Short(pieces)
    ensures Marked(AssociateAll(a, s, pieces)) == Flipped(Marked(s), |pieces|)
    decreases |pieces|
  {
    if pieces != [] {
      AssociateCounts(a, a.absorb(s, pieces[0]), pieces[1..]);
      FlippedTwice(Marked(s), 1, |pieces| - 1);
    }
  }

  lemma {:induction false} CryptCounts(a: Algorithm<State>, s: State, enc: bool, pieces: seq<seq<byte>>)
    requires Counts(a) && Short(pieces)
    ensures Marked(CryptAll(a, s, enc, pieces).0) == Flipped(Marked(s), |pieces|)
    decreases |pieces|
  {
    if pieces != [] {
      CryptCounts(a, if enc then a.encrypt(s, pieces[0]).0 else a.decrypt(s, pieces[0]).0, enc, pieces[1..]);
      FlippedTwice(Marked(s), 1, |pieces| - 1);
    }
  }

  lemma SqueezeCounts(a: Algorithm<State>, s: State)
    requires Counts(a)
    ensures |a.squeeze(s).1| > MARK && a.squeeze(s).1[MARK] == Flipped(Marked(s), 1)
  {
  }

  // The tag of a message in short pieces tells whether their number is even.
  lemma TagCounts(a: Algorithm<State>, s: State, enc: bool, ad: seq<seq<byte>>, data: seq<seq<byte>>, n: nat)
      returns (tag: seq<byte>)
    requires Counts(a) && Short(ad) && Short(data) && n == |ad| + |data| + 1
    ensures tag == a.squeeze(CryptAll(a, AssociateAll(a, s, ad), enc, data).0).1
    ensures |tag| > MARK && tag[MARK] == Flipped(Marked(s), n)
  {
    var mid := AssociateAll(a, s, ad);
    var end := CryptAll(a, mid, enc, data).0;
    tag := a.squeeze(end).1;
    AssociateCounts(a, s, ad);
    CryptCounts(a, mid, enc, data);
    SqueezeCounts(a, end);
    FlippedTwice(Marked(s), |ad|, |data|);
    FlippedTwice(Marked(s), n - 1, 1);
  }

  lemma TagsDiffer(a: Algorithm<State>, s: State, ad: seq<seq<byte>>, data: seq<seq<byte>>, ad': seq<seq<byte>>,
      data': seq<seq<byte>>)
    requires Counts(a) && Short(ad) && Short(data) && Short(ad') && Short(data')
    requires |ad| + |data| == |ad'| + |data'| + 1
    ensures a.squeeze(CryptAll(a, AssociateAll(a, s, ad), true, data).0).1
         != a.squeeze(CryptAll(a, AssociateAll(a, s, ad'), false, data').0).1
  {
    var n := |ad| + |data|;
    var t := TagCounts(a, s, true, ad, data, n + 1);
    var u := TagCounts(a, s, false, ad', data', n);
    FlippedOnce(Marked(s), n);
  }

  lemma FlippedOnce(b: byte, n: nat)
    ensures Flipped(b, n + 1) != Flipped(b, n)
  {
  }

  // ---------------------------------------------------------------- where a message is cut matters

  // The two sides agree on everything but the cutting, and the decryptor holds the encryptor's tag.
  ghost predicate DifferInCutting(a: Algorithm<State>, e: Ctx<State>, d: Ctx<State>, sent: seq<Action>,
      received: seq<Action>) {
    && Paired(a, e, d, sent, received)
    && Concat(AdPieces(received)) == Concat(AdPieces(sent))
    && Concat(DataPieces(received)) == Concat(Message(a, e, sent).out)
    && TagAfter(received, d.Tag()) == Message(a, e, sent).ctx.Tag()
  }

  lemma RefusedWhenCountsDiffer(a: Algorithm<State>, e: Ctx<State>, d: Ctx<State>, sent: seq<Action>,
      received: seq<Action>)
    requires Counts(a) && DifferInCutting(a, e, d, sent, received)
    requires Short(AdPieces(sent)) && Short(DataPieces(sent)) && Short(AdPieces(received))
        && Short(DataPieces(received))
    requires |AdPieces(sent)| + |DataPieces(sent)| == |AdPieces(received)| + |DataPieces(received)| + 1
    ensures Message(a, e, sent).ok && !Message(a, d, received).ok
  {
    TagsDiffer(a, e.backend, AdPieces(sent), DataPieces(sent), AdPieces(received), DataPieces(received));
    MessageAmounts(a, e, sent);
    MessageAmounts(a, d, received);
  }

  // Two pieces one after the other.
  lemma TwoActions(a: Algorithm<State>, key: seq<byte>, p: Action, q: Action)
    requires !p.Set? && p.x != []
    requires if q.Set? then ParamsFit(a, key, q.params) else q.x != [] && (q.Ad? ==> p.Ad?)
    ensures AdPieces([p, q]) == (if p.Ad? then [p.x] else []) + (if q.Ad? then [q.x] else [])
    ensures DataPieces([p, q]) == (if p.Data? then [p.x] else []) + (if q.Data? then [q.x] else [])
    ensures forall tag :: TagAfter([p, q], tag) == if q.Set? && q.params.tag.Some? then q.params.tag else tag
    ensures Allowed(a, key, [p, q], false)
  {
    var acts := [p, q];
    assert acts[1..] == [q] && [q][1..] == [];
    assert AdPieces([q]) == (if q.Ad? then [q.x] else []) + AdPieces([]);
    assert DataPieces([q]) == (if q.Data? then [q.x] else []) + DataPieces([]);
    assert forall tag :: TagAfter([q], tag) == TagAfter([], if q.Set? && q.params.tag.Some? then q.params.tag else tag);
    assert Allowed(a, key, [q], p.Data?);
  }

  // Two octets of associated data, one by one on one side and at once on the other: with every such
  // sponge, under every key and IV, the decryptor refuses the encryptor's tag.
  lemma CuttingAdMatters(sp: Sponge, minKey: nat, tagSize: nat, e: Ctx<State>, d: Ctx<State>)
      returns (sent: seq<Action>, received: seq<Action>)
    requires Flips(sp) && MARK < tagSize <= sp.rate && Paired(PrgAe(sp, minKey, tagSize), e, d, [], [])
    ensures var a := PrgAe(sp, minKey, tagSize);
      && DifferInCutting(a, e, d, sent, received) && DataPieces(sent) == DataPieces(received) == []
      && Message(a, e, sent).ok && !Message(a, d, received).ok
  {
    FlippingSpongeCounts(sp, minKey, tagSize);
    sent, received := RefusedAd(PrgAe(sp, minKey, tagSize), e, d);
  }

  lemma RefusedAd(a: Algorithm<State>, e: Ctx<State>, d: Ctx<State>) returns (sent: seq<Action>, received: seq<Action>)
    requires Counts(a) && Paired(a, e, d, [], [])
    ensures DifferInCutting(a, e, d, sent, received) && DataPieces(sent) == DataPieces(received) == []
    ensures Message(a, e, sent).ok && !Message(a, d, received).ok
  {
    hide Message;
    var x: seq<byte> := [0];
    sent := [Ad(x), Ad(x)];
    TwoActions(a, e.key.value, Ad(x), Ad(x));
    MessageAmounts(a, e, sent);
    var tagged := Set(Params(None, Message(a, e, sent).ctx.Tag()));
    received := [Ad(x + x), tagged];
    TwoActions(a, d.key.value, Ad(x + x), tagged);
    ConcatTwo(x, x);
    assert Message(a, e, sent).out == [];
    RefusedWhenCountsDiffer(a, e, d, sent, received);
  }

  // The same for data, encrypted octet by octet and decrypted at once.
  lemma CuttingDataMatters(sp: Sponge, minKey: nat, tagSize: nat, e: Ctx<State>, d: Ctx<State>)
      returns (sent: seq<Action>, received: seq<Action>)
    requires Flips(sp) && MARK < tagSize <= sp.rate && Paired(PrgAe(sp, minKey, tagSize), e, d, [], [])
    ensures var a := PrgAe(sp, minKey, tagSize);
      && DifferInCutting(a, e, d, sent, received) && AdPieces(sent) == AdPieces(received) == []
      && Message(a, e, sent).ok && !Message(a, d, received).ok
  {
    FlippingSpongeCounts(sp, minKey, tagSize);
    sent, received := RefusedData(PrgAe(sp, minKey, tagSize), e, d);
  }

  lemma RefusedData(a: Algorithm<State>, e: Ctx<State>, d: Ctx<State>)
      returns (sent: seq<Action>, received: seq<Action>)
    requires Counts(a) && Paired(a, e, d, [], [])
    ensures DifferInCutting(a, e, d, sent, received) && AdPieces(sent) == AdPieces(received) == []
    ensures Message(a, e, sent).ok && !Message(a, d, received).ok
  {
    hide Message, AdPieces, DataPieces, TagAfter, Allowed, Counts, Concat;
    var x: seq<byte> := [0];
    var y, z := DataSent(a, e, x);
    sent := [Data(x), Data(x)];
    received := [Data(y + z), Set(Params(None, Message(a, e, sent).ctx.Tag()))];
    DataReceived(a, d, y + z, Message(a, e, sent).ctx.Tag());
    ConcatTwo(y, z);
    RefusedWhenCountsDiffer(a, e, d, sent, received);
  }

  lemma DataSent(a: Algorithm<State>, e: Ctx<State>, x: seq<byte>) returns (y: seq<byte>, z: seq<byte>)
    requires Counts(a) && Started(a, e) && e.enc && |x| == 1
    ensures var sent := [Data(x), Data(x)];
      && AdPieces(sent) == [] && DataPieces(sent) == [x, x] && Allowed(a, e.key.value, sent, false)
      && Message(a, e, sent).out == [y, z] && |y| == |z| == 1
      && Message(a, e, sent).ctx.Tag().Some? && |Message(a, e, sent).ctx.Tag().value| == a.tagSize
  {
    hide Message;
    TwoActions(a, e.key.value, Data(x), Data(x));
    MessageAmounts(a, e, [Data(x), Data(x)]);
    y, z := TwoCiphertexts(a, e.backend, x);
  }

  lemma DataReceived(a: Algorithm<State>, d: Ctx<State>, y: seq<byte>, tag: Option<seq<byte>>)
    requires d.Keyed() && y != [] && tag.Some? && |tag.value| == a.tagSize
    ensures var received := [Data(y), Set(Params(None, tag))];
      && AdPieces(received) == [] && DataPieces(received) == [y] && Allowed(a, d.key.value, received, false)
      && TagAfter(received, d.Tag()) == tag
  {
    TwoActions(a, d.key.value, Data(y), Set(Params(None, tag)));
  }

  lemma TwoCiphertexts(a: Algorithm<State>, s: State, x: seq<byte>) returns (y: seq<byte>, z: seq<byte>)
    requires a.Valid() && |x| == 1
    ensures |y| == 1 && |z| == 1 && EncryptAll(a, AssociateAll(a, s, []), [x, x]).1 == [y, z]
  {
    assert [x, x][1..] == [x] && [x][1..] == [];
    y := a.encrypt(s, x).1;
    z := a.encrypt(a.encrypt(s, x).0, x).1;
    assert EncryptAll(a, a.encrypt(s, x).0, [x]).1 == [z] + [];
  }

  lemma ConcatTwo(y: seq<byte>, z: seq<byte>)
    ensures Concat([y, z]) == y + z == Concat([y + z])
  {
    assert [y, z][1..] == [z] && [z][1..] == [] && [y + z][1..] == [];
    assert Concat([z]) == z + [] == z;
    assert Concat([y + z]) == (y + z) + [];
  }
}
