// PEM text of a key (section 2 of RFC 7468): base64 in lines of 48 octets between the label lines.
module Pem {
  import opened Bytes
  import opened Options
  import opened Buffers
  import Base64

  datatype Kind = PrivateKey | PublicKey

  const LF: byte := 10
  const LINE: nat := 48

  // "-----BEGIN"
  const MARKER: seq<byte> := [45, 45, 45, 45, 45, 66, 69, 71, 73, 78]
  // "-----END "
  const END_MARKER: seq<byte> := [45, 45, 45, 45, 45, 69, 78, 68, 32]
  // "-----" and a line feed
  const DASHES: seq<byte> := [45, 45, 45, 45, 45, 10]

  // "PRIVATE KEY" and "PUBLIC KEY"
  function Name(kind: Kind): seq<byte> {
    match kind
    case PrivateKey => [80, 82, 73, 86, 65, 84, 69, 32, 75, 69, 89]
    case PublicKey => [80, 85, 66, 76, 73, 67, 32, 75, 69, 89]
  }

  lemma NamesAreDistinct()
    ensures Name(PrivateKey) != Name(PublicKey)
  {
    assert Name(PrivateKey)[1] != Name(PublicKey)[1];
  }

  function Header(kind: Kind): seq<byte> {
    MARKER + [32] + Name(kind) + DASHES
  }

  function Footer(kind: Kind): seq<byte> {
    END_MARKER + Name(kind) + DASHES
  }

  lemma Spelling()
    ensures MARKER == Ascii("-----BEGIN")
    ensures END_MARKER == Ascii("-----END ") && DASHES == Ascii("-----\n")
    ensures Name(PrivateKey) == Ascii("PRIVATE KEY") && Name(PublicKey) == Ascii("PUBLIC KEY")
  {
  }

  function Label(kind: Kind): (text: string)
    ensures forall i :: 0 <= i < |text| ==> text[i] as int < 128
  {
    match kind
    case PrivateKey => "PRIVATE KEY"
    case PublicKey => "PUBLIC KEY"
  }

  // The label lines as they stand in the file.
  lemma LabelLines(kind: Kind)
    ensures Header(kind) == Ascii("-----BEGIN") + Ascii(" ") + Ascii(Label(kind)) + Ascii("-----\n")
    ensures Footer(kind) == Ascii("-----END ") + Ascii(Label(kind)) + Ascii("-----\n")
  {
    Spelling();
    assert Ascii(" ") == [32];
    hide Ascii;
  }

  // The lines of the payload, without their line feeds.
  function LineList(data: seq<byte>): seq<seq<byte>>
    decreases |data|
  {
    if data == [] then [] else [Base64.Encode(data[..Min(|data|, LINE)])] + LineList(data[Min(|data|, LINE)..])
  }

  function Ended(lines: seq<seq<byte>>): seq<byte> {
    if lines == [] then [] else lines[0] + [LF] + Ended(lines[1..])
  }

  function Body(data: seq<byte>): seq<byte> {
    Ended(LineList(data))
  }

  function Text(data: seq<byte>, kind: Kind): seq<byte> {
    Header(kind) + Body(data) + Footer(kind)
  }

  // ---------------------------------------------------------------- writing

  method WritePemPayload(out: Sink, data: seq<byte>, kind: Kind) returns (ok: bool)
    modifies out
    ensures ok ==> out.delivered == old(out.delivered) + Text(data, kind)
    ensures out.Accepting() ==> ok
  {
    ghost var before := out.delivered;
    ok := WriteAll(out, Header(kind));
    if !ok {
      return;
    }
    ok := WriteLines(out, data);
    if !ok {
      return;
    }
    ok := WriteAll(out, Footer(kind));
    TextInParts(before, data, kind);
  }

  lemma TextInParts(before: seq<byte>, data: seq<byte>, kind: Kind)
    ensures before + Header(kind) + Body(data) + Footer(kind) == before + Text(data, kind)
  {
    hide Header, Footer, Body;
  }

  method WriteLines(out: Sink, data: seq<byte>) returns (ok: bool)
    modifies out
    ensures ok ==> out.delivered == old(out.delivered) + Body(data)
    ensures out.Accepting() ==> ok
  {
    ok := true;
    ghost var whole := out.delivered + Body(data);
    var offset := 0;
    assert data[0..] == data;
    hide Body, Base64.Encode, LineList, Ended;
    while offset < |data|
      invariant offset <= |data|
      invariant out.delivered + Body(data[offset..]) == whole
    {
      var chunkLen := |data| - offset;
      if chunkLen > LINE {
        chunkLen := LINE;
      }
      var end := offset + chunkLen;
      var b64 := Base64.Encode(data[offset..end]);
      BodyStep(data, offset, end, out.delivered);
      ok := WriteLine(out, b64);
      if !ok {
        return;
      }
      offset := end;
    }
    ok := true;
    EmptyBody(out.delivered);
    assert data[offset..] == [];
  }

  lemma BodyStep(data: seq<byte>, offset: nat, end: nat, front: seq<byte>)
    requires offset < |data| && end == offset + Min(|data| - offset, LINE)
    ensures front + Body(data[offset..]) == front + (Base64.Encode(data[offset..end]) + [LF]) + Body(data[end..])
  {
    hide Base64.Encode;
    var rest, n := data[offset..], end - offset;
    assert rest[..n] == data[offset..end];
    assert rest[n..] == data[end..];
    var line := Base64.Encode(rest[..n]);
    assert LineList(rest)[1..] == LineList(rest[n..]);
    assert Body(rest) == line + [LF] + Body(rest[n..]);
  }

  lemma EmptyBody(front: seq<byte>)
    ensures front + Body([]) == front
  {
  }

  method WriteLine(out: Sink, line: seq<byte>) returns (ok: bool)
    modifies out
    ensures ok ==> out.delivered == old(out.delivered) + (line + [LF])
    ensures out.Accepting() ==> ok
  {
    ok := WriteAll(out, line);
    if ok {
      ok := WriteAll(out, [LF]);
    }
  }

  // ---------------------------------------------------------------- what the lines are

  // The lines spell the base64 of the whole payload.
  lemma {:induction false} LinesAreBase64(data: seq<byte>)
    ensures Concat(LineList(data)) == Base64.Encode(data)
    decreases |data|
  {
    hide Base64.Encode;
    if data == [] {
      Base64.NothingEncodes();
    } else {
      var n := Min(|data|, LINE);
      LinesAreBase64(data[n..]);
      assert LineList(data)[1..] == LineList(data[n..]);
      assert data == data[..n] + data[n..];
      if n == LINE {
        Base64.EncodeAppend(data[..n], data[n..]);
      } else {
        assert data[..n] == data && LineList(data[n..]) == [];
        assert Concat(LineList(data)) == Base64.Encode(data) + [];
      }
    }
  }

  predicate StandsAt(text: seq<byte>, at: nat, line: seq<byte>) {
    at + |line| <= |text| && text[at..at + |line|] == line
  }

  // Line i is the base64 of octets 48 i to 48 i + 47, or to the last, and a line feed; it stands 65 i
  // octets behind the header, and no line follows the last one.
  lemma {:induction false} LineAt(data: seq<byte>, i: nat, from: nat, end: nat, at: nat)
    requires from == 48 * i < |data| && end == Min(from + 48, |data|) && at == 65 * i
    ensures StandsAt(Body(data), at, Base64.Encode(data[from..end]) + [10])
    ensures end == |data| ==> |Body(data)| == at + |Base64.Encode(data[from..end])| + 1
    decreases i
  {
    hide Base64.Encode, Body, StandsAt;
    var n := Min(|data|, LINE);
    var first := FirstLine(data, n);
    if i > 0 {
      LineAt(data[48..], i - 1, from - 48, end - 48, at - 65);
      SliceOfRest(data, from, end);
      BehindFirst(first, Body(data[48..]), at, Base64.Encode(data[from..end]) + [10]);
    } else {
      AtFront(first, Body(data[n..]));
    }
  }

  lemma SliceOfRest(data: seq<byte>, from: nat, end: nat)
    requires 48 <= from <= end <= |data|
    ensures data[48..][from - 48..end - 48] == data[from..end]
  {
  }

  lemma BehindFirst(first: seq<byte>, rest: seq<byte>, at: nat, line: seq<byte>)
    requires |first| == 65 <= at && StandsAt(rest, at - 65, line)
    ensures StandsAt(first + rest, at, line)
  {
  }

  lemma AtFront(first: seq<byte>, rest: seq<byte>)
    ensures StandsAt(first + rest, 0, first)
  {
  }

  lemma FirstLine(data: seq<byte>, n: nat) returns (first: seq<byte>)
    requires data != [] && n == Min(|data|, LINE)
    ensures first == Base64.Encode(data[..n]) + [10] && Body(data) == first + Body(data[n..])
    ensures n == 48 ==> |first| == 65
    ensures n == |data| ==> Body(data[n..]) == []
  {
    hide Base64.Encode;
    Base64.Shape(data[..n]);
    first := Base64.Encode(data[..n]) + [LF];
    assert LineList(data)[1..] == LineList(data[n..]);
    if n == |data| {
      assert data[n..] == [] && Body([]) == [];
    }
  }

  predicate IsLine(line: seq<byte>, last: bool) {
    && 0 < |line| <= 64 && LF !in line
    && (!last ==> |line| == 64 && Base64.PAD !in line)
  }

  // One line per begun 48 octets; every line but the last has 64 letters and no padding, and the
  // last one has 1 to 64 letters.
  lemma {:induction false} LineShapes(data: seq<byte>)
    ensures |LineList(data)| == (|data| + LINE - 1) / LINE
    ensures forall i :: 0 <= i < |LineList(data)| ==> IsLine(LineList(data)[i], i == |LineList(data)| - 1)
    decreases |data|
  {
    if data != [] {
      var n := Min(|data|, LINE);
      FirstLineShape(data[..n]);
      LineShapes(data[n..]);
      var lines, rest := LineList(data), LineList(data[n..]);
      assert lines == [Base64.Encode(data[..n])] + rest;
      assert rest == [] <==> n == |data|;
      forall i | 0 <= i < |lines|
        ensures IsLine(lines[i], i == |lines| - 1)
      {
        if i > 0 {
          assert lines[i] == rest[i - 1];
        }
      }
    }
  }

  lemma FirstLineShape(piece: seq<byte>)
    requires 0 < |piece| <= LINE
    ensures IsLine(Base64.Encode(piece), true)
    ensures |piece| == LINE ==> IsLine(Base64.Encode(piece), false)
  {
    var line := Base64.Encode(piece);
    Base64.Shape(piece);
    LineLength(|piece|, |line|);
    if |piece| == LINE {
      Base64.NoPadding(piece);
    }
    assert LF !in line;
  }

  lemma LineLength(n: nat, letters: nat)
    requires 0 < n <= LINE && letters == (n + 2) / 3 * 4
    ensures 0 < letters <= 64 && (n == LINE ==> letters == 64 && n % 3 == 0)
  {
  }

  // ---------------------------------------------------------------- reading

  function Joined(text: seq<byte>): seq<byte> {
    if text == [] then [] else (if text[0] == LF then [] else [text[0]]) + Joined(text[1..])
  }

  // The payload between the label lines of a kind.
  function ReadAs(text: seq<byte>, kind: Kind): Option<seq<byte>> {
    var h, f := Header(kind), Footer(kind);
    if |h| + |f| <= |text| && text[..|h|] == h && text[|text| - |f|..] == f
    then Base64.Decode(Joined(text[|h|..|text| - |f|]))
    else None
  }

  datatype Document = Document(kind: Kind, data: seq<byte>)

  function Read(text: seq<byte>): Option<Document> {
    var asPrivate := ReadAs(text, PrivateKey);
    if asPrivate.Some? then Some(Document(PrivateKey, asPrivate.value))
    else
      var asPublic := ReadAs(text, PublicKey);
      if asPublic.Some? then Some(Document(PublicKey, asPublic.value)) else None
  }

  lemma {:induction false} JoinedAppend(a: seq<byte>, b: seq<byte>)
    ensures Joined(a + b) == Joined(a) + Joined(b)
  {
    if a == [] {
      assert a + b == b;
    } else {
      assert (a + b)[1..] == a[1..] + b;
      JoinedAppend(a[1..], b);
    }
  }

  lemma {:induction false} JoinedLine(line: seq<byte>)
    requires LF !in line
    ensures Joined(line) == line
  {
    if line != [] {
      JoinedLine(line[1..]);
    }
  }

  lemma {:induction false} JoinedLines(lines: seq<seq<byte>>)
    requires forall i :: 0 <= i < |lines| ==> LF !in lines[i]
    ensures Joined(Ended(lines)) == Concat(lines)
    decreases |lines|
  {
    if lines != [] {
      JoinedEnded(lines[0]);
      JoinedLines(lines[1..]);
      JoinedAppend(lines[0] + [LF], Ended(lines[1..]));
    }
  }

  lemma JoinedEnded(line: seq<byte>)
    requires LF !in line
    ensures Joined(line + [LF]) == line
  {
    JoinedLine(line);
    JoinedAppend(line, [LF]);
    assert [LF][1..] == [];
    assert Joined([LF]) == [];
  }

  lemma ReadBack(data: seq<byte>, kind: Kind)
    ensures ReadAs(Text(data, kind), kind) == Some(data)
  {
    hide Base64.Encode, Base64.Decode, Header, Footer, LineList, Ended, Joined;
    var h, body, f := Header(kind), Body(data), Footer(kind);
    var text := Text(data, kind);
    assert text[..|h|] == h && text[|text| - |f|..] == f && text[|h|..|text| - |f|] == body;
    LinesAreBase64(data);
    LineShapes(data);
    JoinedLines(LineList(data));
    Base64.DecodeOfEncode(data);
  }

  // Reading what was written gives the kind and the payload back, whatever its length.
  lemma RoundTrip(data: seq<byte>, kind: Kind)
    ensures Read(Text(data, kind)) == Some(Document(kind, data))
  {
    ReadBack(data, kind);
    if kind.PublicKey? {
      var text := Text(data, kind);
      assert text[12] == Header(kind)[12] == 85;
      assert Header(PrivateKey)[12] == 82;
      assert ReadAs(text, PrivateKey).None?;
    }
  }

  // ---------------------------------------------------------------- telling PEM from DER

  predicate MarkerAt(buf: seq<byte>, offset: nat) {
    offset + |MARKER| <= |buf| && buf[offset..offset + |MARKER|] == MARKER
  }

  ghost predicate HasMarker(buf: seq<byte>) {
    exists offset :: MarkerAt(buf, offset)
  }

  method IsPemData(buf: seq<byte>) returns (found: bool)
    ensures found <==> HasMarker(buf)
  {
    if |buf| < |MARKER| {
      return false;
    }
    var offset := 0;
    while offset <= |buf| - |MARKER|
      invariant 0 <= offset <= |buf| - |MARKER| + 1
      invariant forall o :: 0 <= o < offset ==> !MarkerAt(buf, o)
    {
      if buf[offset..offset + |MARKER|] == MARKER {
        assert MarkerAt(buf, offset);
        return true;
      }
      offset := offset + 1;
    }
    return false;
  }

  lemma WrittenTextIsPem(data: seq<byte>, kind: Kind)
    ensures HasMarker(Text(data, kind))
  {
    assert Text(data, kind)[0..|MARKER|] == MARKER;
    assert MarkerAt(Text(data, kind), 0);
  }
}
