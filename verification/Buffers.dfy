// Byte transport of the key codec: the growing read buffer, reading a source to its end, and
// writing to a sink that may accept less than it is offered.
module Buffers {
  import opened Bytes
  import opened Options

  const FIRST_CAPACITY: nat := 4096

  // ---------------------------------------------------------------- growing buffer

  class GrowBuffer {
    var data: array<byte>
    var length: nat
    var capacity: nat

    ghost predicate Valid()
      reads this
    {
      length <= capacity == data.Length <= SIZE_MAX
    }

    ghost function Contents(): seq<byte>
      requires Valid()
      reads this, data
    {
      data[..length]
    }

    constructor ()
      ensures Valid() && Contents() == [] && capacity == 0 && fresh(data)
    {
      data := new byte[0];
      length, capacity := 0, 0;
    }

    // The capacity doubles until it suffices, or is taken exactly where doubling would overflow.
    static method NextCapacity(from: nat, required: nat) returns (newCapacity: nat)
      requires from <= SIZE_MAX && required <= SIZE_MAX
      ensures required <= newCapacity <= SIZE_MAX
      ensures newCapacity <= from || newCapacity == FIRST_CAPACITY || newCapacity < 2 * required
    {
      newCapacity := if from != 0 then from else FIRST_CAPACITY;
      while newCapacity < required
        invariant 0 < newCapacity <= SIZE_MAX
        invariant newCapacity <= from || newCapacity == FIRST_CAPACITY || newCapacity < 2 * required
        decreases required - newCapacity
      {
        if newCapacity > SIZE_MAX / 2 {
          newCapacity := required;
          break;
        }
        newCapacity := newCapacity * 2;
      }
    }

    // Makes room for a length; grows is the outcome of the reallocation, where one is needed.
    method Reserve(required: nat, grows: bool) returns (ok: bool)
      requires Valid() && length <= required <= SIZE_MAX
      modifies `data, `capacity
      ensures Valid() && Contents() == old(Contents())
      ensures ok <==> required <= old(capacity) || grows
      ensures ok ==> required <= capacity
      ensures old(capacity) <= capacity && (data == old(data) || fresh(data))
    {
      if required > capacity {
        var newCapacity := NextCapacity(capacity, required);
        if !grows {
          return false;
        }
        var expanded := new byte[newCapacity](_ => 0);
        forall i | 0 <= i < length {
          expanded[i] := data[i];
        }
        data, capacity := expanded, newCapacity;
      }
      return true;
    }

    method Append(input: seq<byte>, grows: bool) returns (ok: bool)
      requires Valid()
      modifies this, data
      ensures Valid()
      ensures ok <==> |input| <= SIZE_MAX - old(length) && (old(length) + |input| <= old(capacity) || grows)
      ensures ok ==> length == old(length) + |input|
      ensures Contents() == if ok then old(Contents()) + input else old(Contents())
      ensures old(capacity) <= capacity && (data == old(data) || fresh(data))
    {
      if |input| > SIZE_MAX - length {
        return false;
      }
      ok := Reserve(length + |input|, grows);
      if !ok {
        return;
      }
      ghost var was := data[..];
      forall i | 0 <= i < |input| {
        data[length + i] := input[i];
      }
      Stored(was, data[..], length, input);
      length := length + |input|;
    }
  }

  lemma Stored(was: seq<byte>, now: seq<byte>, at: nat, input: seq<byte>)
    requires |was| == |now| && at + |input| <= |now|
    requires forall i :: 0 <= i < at ==> now[i] == was[i]
    requires forall i :: 0 <= i < |input| ==> now[at + i] == input[i]
    ensures now[..at + |input|] == was[..at] + input
  {
  }

  // ---------------------------------------------------------------- reading to the end

  // What one read delivers: its verdict and the octets it stored.
  datatype Chunk = Chunk(ok: bool, bytes: seq<byte>)

  class Source {
    var pending: seq<Chunk>

    constructor (script: seq<Chunk>)
      ensures pending == script
    {
      pending := script;
    }

    method Read() returns (c: Chunk)
      modifies this
      ensures old(pending) == [] ==> c == Chunk(false, []) && pending == []
      ensures old(pending) != [] ==> c == old(pending)[0] && pending == old(pending)[1..]
    {
      if |pending| == 0 {
        return Chunk(false, []);
      }
      c := pending[0];
      pending := pending[1..];
    }
  }

  // The octets up to the first read that delivers nothing; a failed read that delivered some
  // spoils everything.
  function Gathered(script: seq<Chunk>): Option<seq<byte>> {
    if script == [] || script[0].bytes == [] then Some([])
    else if !script[0].ok then None
    else
      var rest := Gathered(script[1..]);
      if rest.None? then None else Some(script[0].bytes + rest.value)
  }

  function Delivered(pieces: seq<seq<byte>>): (script: seq<Chunk>)
    ensures |script| == |pieces|
  {
    if pieces == [] then [] else [Chunk(true, pieces[0])] + Delivered(pieces[1..])
  }

  lemma {:induction false} GatheredIsConcatenation(pieces: seq<seq<byte>>, end: seq<Chunk>)
    requires forall i :: 0 <= i < |pieces| ==> pieces[i] != []
    requires end == [] || end[0].bytes == []
    ensures Gathered(Delivered(pieces) + end) == Some(Concat(pieces))
    decreases |pieces|
  {
    if pieces == [] {
      assert Delivered(pieces) + end == end;
    } else {
      FirstDelivered(pieces, end);
      GatheredIsConcatenation(pieces[1..], end);
    }
  }

  lemma FirstDelivered(pieces: seq<seq<byte>>, end: seq<Chunk>)
    requires pieces != []
    ensures var script := Delivered(pieces) + end;
      script[0] == Chunk(true, pieces[0]) && script[1..] == Delivered(pieces[1..]) + end
  {
    FirstOfSum(Chunk(true, pieces[0]), Delivered(pieces[1..]), end);
  }

  lemma FirstOfSum<T>(x: T, a: seq<T>, b: seq<T>)
    ensures (([x] + a) + b)[0] == x && (([x] + a) + b)[1..] == a + b
  {
  }

  function Prefixed(front: seq<byte>, r: Option<seq<byte>>): Option<seq<byte>> {
    if r.None? then None else Some(front + r.value)
  }

  // On the way through the script, behind held octets, a length is reached that does not fit size_t or
  // that the buffer cannot grow to.
  predicate Stuck(script: seq<Chunk>, held: nat, allocates: nat -> bool) {
    && script != [] && script[0].ok && script[0].bytes != []
    && var length := held + |script[0].bytes|;
      length > SIZE_MAX || !allocates(length) || Stuck(script[1..], length, allocates)
  }

  // Reads everything; allocates tells whether the buffer can grow to a given length.
  method ReadAll(input: Source, allocates: nat -> bool) returns (r: Option<seq<byte>>)
    modifies input
    ensures r.Some? ==> r == Gathered(old(input.pending))
    ensures r.None? ==> Gathered(old(input.pending)).None? || Stuck(old(input.pending), 0, allocates)
  {
    var buffer := new GrowBuffer();
    ghost var script := input.pending;
    NothingBefore(Gathered(script));
    while true
      invariant buffer.Valid() && fresh(buffer) && fresh(buffer.data)
      invariant Gathered(script) == Prefixed(buffer.Contents(), Gathered(input.pending))
      invariant Stuck(input.pending, buffer.length, allocates) ==> Stuck(script, 0, allocates)
      decreases |input.pending|
    {
      ghost var before, sofar := input.pending, buffer.Contents();
      var c := input.Read();
      if |c.bytes| == 0 {
        AtEnd(sofar, before);
        return Some(buffer.data[..buffer.length]);
      }
      if !c.ok {
        return None;
      }
      var ok := buffer.Append(c.bytes, allocates(buffer.length + |c.bytes|));
      if !ok {
        return None;
      }
      OneChunk(sofar, before);
    }
  }

  lemma AtEnd(sofar: seq<byte>, script: seq<Chunk>)
    requires script == [] || script[0].bytes == []
    ensures Prefixed(sofar, Gathered(script)) == Some(sofar)
  {
    AppendNothing(sofar);
  }

  lemma NothingBefore(r: Option<seq<byte>>)
    ensures Prefixed([], r) == r
  {
    if r.Some? {
      AppendNothing(r.value);
    }
  }

  lemma OneChunk(sofar: seq<byte>, script: seq<Chunk>)
    requires script != [] && script[0].ok && script[0].bytes != []
    ensures Prefixed(sofar, Gathered(script)) == Prefixed(sofar + script[0].bytes, Gathered(script[1..]))
  {
    var rest := Gathered(script[1..]);
    if rest.Some? {
      AppendAssociates(sofar, script[0].bytes, rest.value);
    }
  }

  // ---------------------------------------------------------------- writing everything

  // What a sink makes of an offer: it fails, or takes up to so many octets.
  datatype Verdict = Fails | Takes(most: nat)

  class Sink {
    var delivered: seq<byte>
    var calls: nat
    const policy: (nat, nat) -> Verdict

    constructor (policy: (nat, nat) -> Verdict)
      ensures delivered == [] && this.policy == policy
    {
      this.policy := policy;
      delivered, calls := [], 0;
    }

    ghost predicate Accepting() {
      forall call, size :: size > 0 ==> policy(call, size).Takes? && policy(call, size).most > 0
    }

    method Write(input: seq<byte>) returns (ok: bool, written: nat)
      modifies this
      ensures written <= |input| && delivered == old(delivered) + input[..written]
      ensures Accepting() && input != [] ==> ok && written > 0
    {
      var verdict := policy(calls, |input|);
      calls := calls + 1;
      if verdict.Fails? {
        return false, 0;
      }
      written := Min(verdict.most, |input|);
      delivered := delivered + input[..written];
      ok := true;
    }
  }

  // Offers what is left, at most INT_MAX octets at a time, until the sink has it all or stops
  // taking.
  method WriteAll(out: Sink, input: seq<byte>) returns (ok: bool)
    modifies out
    ensures ok ==> out.delivered == old(out.delivered) + input
    ensures !ok ==> exists n :: 0 <= n <= |input| && out.delivered == old(out.delivered) + input[..n]
    ensures out.Accepting() ==> ok
  {
    var pos := 0;
    while |input| - pos > 0
      invariant pos <= |input| && out.delivered == old(out.delivered) + input[..pos]
    {
      var chunk := Min(|input| - pos, INT_MAX);
      var taken, written := out.Write(input[pos..pos + chunk]);
      assert input[..pos + written] == input[..pos] + input[pos..pos + chunk][..written];
      if !taken || written == 0 {
        return false;
      }
      pos := pos + written;
    }
    assert input[..pos] == input;
    return true;
  }
}
