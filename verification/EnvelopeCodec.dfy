/**
 Encoding into a buffer in place, in one go and in pieces for scatter-gather sending
 (include/vita/codec/wire.hpp, encode_envelope; include/vita/codec/prologue.hpp).
 */
module EnvelopeCodec {
  import opened Core
  import opened Envelopes
  import opened EnvelopeRoundTrip

  /** Bytes before the payload. */
  function PrologueBytes(e: Envelope, words: nat): seq<Octet>
    requires ValidEnvelope(e) && words < 0x1_0000
  {
    HeaderInRange(e, words);
    Store(JoinHeader(HeaderOf(e, words))) + FieldBytes(e, [])
  }

  lemma FieldsThenTail(e: Envelope, tail: seq<Octet>)
    requires ValidEnvelope(e)
    ensures FieldBytes(e, tail) == FieldBytes(e, []) + tail
  {
    hide ValidEnvelope, WordBytes, ClassBytes, IntegerBytes, FractionBytes, CommandBytes;
    ValidParts(e);
    CommandThenTail(e.command, tail);
    FiveThenTail(WordBytes(e.streamId), ClassBytes(e.classId), IntegerBytes(e.timestamp), FractionBytes(e.timestamp),
                 CommandBytes(e.command, []), tail);
  }

  lemma FiveThenTail(a: seq<Octet>, b: seq<Octet>, c: seq<Octet>, d: seq<Octet>, k: seq<Octet>, tail: seq<Octet>)
    ensures a + (b + (c + (d + (k + tail)))) == (a + (b + (c + (d + k)))) + tail
    ensures a + (b + (c + (d + k))) == a + b + c + d + k
  {
  }

  lemma CommandThenTail(c: Option<Command>, tail: seq<Octet>)
    ensures CommandBytes(c, tail) == CommandBytes(c, []) + tail
  {
    hide Store, IdentifierBytes;
    if c.Some? {
      var a, b, x, y := Store(c.value.cam), Store(c.value.messageId), IdentifierBytes(c.value.controllee),
          IdentifierBytes(c.value.controller);
      assert a + (b + (x + (y + tail))) == (a + (b + (x + (y + [])))) + tail;
    }
  }

  // ----- Writing -----

  /** `bytes` now stand at the offset and nothing else changed. */
  ghost predicate Appended(was: seq<Octet>, now: seq<Octet>, offset: nat, bytes: seq<Octet>) {
    && |now| == |was| && offset + |bytes| <= |was|
    && now == was[..offset] + bytes + was[offset + |bytes|..]
  }

  lemma AppendedTwice(was: seq<Octet>, mid: seq<Octet>, now: seq<Octet>, offset: nat, a: seq<Octet>, b: seq<Octet>)
    requires Appended(was, mid, offset, a) && Appended(mid, now, offset + |a|, b)
    ensures Appended(was, now, offset, a + b)
  {
    assert mid[..offset + |a|] == was[..offset] + a;
    assert mid[offset + |a| + |b|..] == was[offset + |a| + |b|..];
  }

  lemma AppendedThrice(was: seq<Octet>, one: seq<Octet>, two: seq<Octet>, now: seq<Octet>, offset: nat, a: seq<Octet>,
                       b: seq<Octet>, c: seq<Octet>)
    requires Appended(was, one, offset, a) && Appended(one, two, offset + |a|, b)
    requires Appended(two, now, offset + |a| + |b|, c)
    ensures |a + b + c| == |a| + |b| + |c| && Appended(was, now, offset, a + b + c)
  {
    hide Appended;
    AppendedTwice(was, one, two, offset, a, b);
    AppendedTwice(was, two, now, offset, a + b, c);
  }

  method Put(out: array<Octet>, offset: nat, w: Word) returns (next: nat)
    requires offset + 4 <= out.Length
    modifies out
    ensures next == offset + 4 && Appended(old(out[..]), out[..], offset, Store(w))
  {
    var b := Store(w);
    hide Store;
    out[offset], out[offset + 1], out[offset + 2], out[offset + 3] := b[0], b[1], b[2], b[3];
    assert out[..] == old(out[..])[..offset] + b + old(out[..])[offset + 4..];
    next := offset + 4;
  }

  method PutOption(out: array<Octet>, offset: nat, w: Option<Word>) returns (next: nat)
    requires offset + |WordBytes(w)| <= out.Length
    modifies out
    ensures next == offset + |WordBytes(w)| && Appended(old(out[..]), out[..], offset, WordBytes(w))
  {
    hide Store;
    next := offset;
    if w.Some? {
      next := Put(out, offset, w.value);
    }
  }

  method PutTwo(out: array<Octet>, offset: nat, a: Word, b: Word) returns (next: nat)
    requires offset + 8 <= out.Length
    modifies out
    ensures next == offset + 8 && Appended(old(out[..]), out[..], offset, Store(a) + Store(b))
  {
    hide Store, Appended;
    ghost var was := out[..];
    next := Put(out, offset, a);
    ghost var mid := out[..];
    next := Put(out, next, b);
    AppendedTwice(was, mid, out[..], offset, Store(a), Store(b));
  }

  method PutIdentifier(out: array<Octet>, offset: nat, id: Identifier) returns (next: nat)
    requires offset + |IdentifierBytes(id)| <= out.Length
    modifies out
    ensures next == offset + |IdentifierBytes(id)| && Appended(old(out[..]), out[..], offset, IdentifierBytes(id))
  {
    hide Store, Appended;
    match id.kind
    case Absent =>
      NothingAppended(out[..], offset);
      next := offset;
    case ShortId =>
      next := Put(out, offset, id.w0);
    case Uuid =>
      ghost var was := out[..];
      next := PutTwo(out, offset, id.w0, id.w1);
      ghost var mid := out[..];
      next := PutTwo(out, next, id.w2, id.w3);
      AppendedTwice(was, mid, out[..], offset, Store(id.w0) + Store(id.w1), Store(id.w2) + Store(id.w3));
      assert IdentifierBytes(id) == Store(id.w0) + Store(id.w1) + (Store(id.w2) + Store(id.w3));
  }

  lemma NothingAppended(s: seq<Octet>, offset: nat)
    requires offset <= |s|
    ensures Appended(s, s, offset, [])
  {
  }

  /** Stream identifier, class identifier and timestamp. */
  function PlainBytes(e: Envelope): seq<Octet>
    requires ValidClass(e.classId)
  {
    WordBytes(e.streamId) + ClassBytes(e.classId) + IntegerBytes(e.timestamp) + FractionBytes(e.timestamp)
  }

  method PutClass(out: array<Octet>, offset: nat, id: Option<ClassId>) returns (next: nat)
    requires ValidClass(id) && offset + |ClassBytes(id)| <= out.Length
    modifies out
    ensures next == offset + |ClassBytes(id)| && Appended(old(out[..]), out[..], offset, ClassBytes(id))
  {
    hide Store, Appended, ClassHead, ClassTail;
    next := offset;
    NothingAppended(out[..], offset);
    if id.Some? {
      next := PutTwo(out, offset, ClassHead(id.value), ClassTail(id.value));
    }
  }

  method PutTimestamp(out: array<Octet>, offset: nat, t: Timestamp) returns (next: nat)
    requires offset + |IntegerBytes(t) + FractionBytes(t)| <= out.Length
    modifies out
    ensures next == offset + |IntegerBytes(t) + FractionBytes(t)|
    ensures Appended(old(out[..]), out[..], offset, IntegerBytes(t) + FractionBytes(t))
  {
    hide Store, Appended;
    ghost var was := out[..];
    next := PutOption(out, offset, if t.tsi != 0 then Some(t.integer) else None);
    ghost var mid := out[..];
    NothingAppended(mid, next);
    if t.tsf != 0 {
      next := PutTwo(out, next, t.fractional / 0x1_0000_0000, t.fractional % 0x1_0000_0000);
    }
    AppendedTwice(was, mid, out[..], offset, IntegerBytes(t), FractionBytes(t));
  }

  method PutPlain(out: array<Octet>, offset: nat, e: Envelope) returns (next: nat)
    requires ValidClass(e.classId) && offset + |PlainBytes(e)| <= out.Length
    modifies out
    ensures next == offset + |PlainBytes(e)| && Appended(old(out[..]), out[..], offset, PlainBytes(e))
  {
    hide Appended, WordBytes, ClassBytes, IntegerBytes, FractionBytes;
    ghost var a, b, c := WordBytes(e.streamId), ClassBytes(e.classId),
        IntegerBytes(e.timestamp) + FractionBytes(e.timestamp);
    assert PlainBytes(e) == a + b + c;
    ghost var was := out[..];
    next := PutOption(out, offset, e.streamId);
    ghost var one := out[..];
    next := PutClass(out, next, e.classId);
    ghost var two := out[..];
    next := PutTimestamp(out, next, e.timestamp);
    AppendedThrice(was, one, two, out[..], offset, a, b, c);
  }

  method PutCommand(out: array<Octet>, offset: nat, command: Option<Command>) returns (next: nat)
    requires offset + |CommandBytes(command, [])| <= out.Length
    modifies out
    ensures next == offset + |CommandBytes(command, [])|
    ensures Appended(old(out[..]), out[..], offset, CommandBytes(command, []))
  {
    hide Store, Appended, IdentifierBytes;
    if command.None? {
      NothingAppended(out[..], offset);
      return offset;
    }
    var c := command.value;
    ghost var head, x, y := Store(c.cam) + Store(c.messageId), IdentifierBytes(c.controllee),
        IdentifierBytes(c.controller);
    assert CommandBytes(command, []) == head + x + y;
    hide CommandBytes;
    ghost var was := out[..];
    next := PutTwo(out, offset, c.cam, c.messageId);
    ghost var one := out[..];
    next := PutIdentifier(out, next, c.controllee);
    ghost var two := out[..];
    next := PutIdentifier(out, next, c.controller);
    AppendedThrice(was, one, two, out[..], offset, head, x, y);
  }

  lemma PrologueSize(e: Envelope, words: nat)
    requires ValidEnvelope(e) && words < 0x1_0000
    ensures |PrologueBytes(e, words)| == 4 * PrologueWords(e)
    ensures HeaderRange(HeaderOf(e, words)) && ValidClass(e.classId)
    ensures PrologueBytes(e, words) ==
              Store(JoinHeader(HeaderOf(e, words))) + PlainBytes(e) + CommandBytes(e.command, [])
  {
    hide ValidEnvelope, WordBytes, ClassBytes, IntegerBytes, FractionBytes, CommandBytes, JoinHeader, HeaderOf,
         HeaderRange, PrologueWords, Store;
    HeaderInRange(e, words);
    ValidParts(e);
    FieldsSize(e, []);
    FiveThenTail(WordBytes(e.streamId), ClassBytes(e.classId), IntegerBytes(e.timestamp), FractionBytes(e.timestamp),
                 CommandBytes(e.command, []), []);
  }

  /** Writes the prologue with a moving offset. */
  method WritePrologue(e: Envelope, words: nat, out: array<Octet>) returns (offset: nat)
    requires ValidEnvelope(e) && words < 0x1_0000 && 4 * PrologueWords(e) <= out.Length
    modifies out
    ensures offset == 4 * PrologueWords(e) && |PrologueBytes(e, words)| == offset
    ensures Appended(old(out[..]), out[..], 0, PrologueBytes(e, words))
  {
    PrologueSize(e, words);
    hide ValidEnvelope, Store, Appended, PlainBytes, CommandBytes, JoinHeader, HeaderOf, PrologueBytes, PrologueWords;
    var header := JoinHeader(HeaderOf(e, words));
    ghost var was := out[..];
    offset := Put(out, 0, header);
    ghost var one := out[..];
    offset := PutPlain(out, offset, e);
    ghost var two := out[..];
    offset := PutCommand(out, offset, e.command);
    AppendedThrice(was, one, two, out[..], 0, Store(header), PlainBytes(e), CommandBytes(e.command, []));
  }

  method Copy(payload: seq<Octet>, out: array<Octet>, offset: nat)
    requires offset + |payload| <= out.Length
    modifies out
    ensures Appended(old(out[..]), out[..], offset, payload)
  {
    ghost var was := out[..];
    for i := 0 to |payload|
      invariant forall j :: 0 <= j < i ==> out[offset + j] == payload[j]
      invariant forall j :: 0 <= j < out.Length && !(offset <= j < offset + i) ==> out[j] == was[j]
    {
      out[offset + i] := payload[i];
    }
    assert out[..] == was[..offset] + payload + was[offset + |payload|..];
  }

  /** The pieces of a packet, put together, are the packet. */
  lemma PiecesMakeWire(v: View)
    requires Encodable(v)
    ensures ValidEnvelope(v.envelope)
    ensures var size := MeasureEnvelope(v.envelope, |v.payload|).value;
            && size / 4 < 0x1_0000 && |Wire(v)| == size
            && Wire(v) == PrologueBytes(v.envelope, size / 4) + v.payload + WordBytes(v.trailer)
  {
    hide ValidEnvelope, FieldBytes, JoinHeader, HeaderOf, WordBytes, Store, MeasureEnvelope, PrologueWords;
    MeasureIsValid(v.envelope, |v.payload|);
    WireSize(v);
    FieldsThenTail(v.envelope, v.payload + WordBytes(v.trailer));
    var words := MeasureEnvelope(v.envelope, |v.payload|).value / 4;
    HeaderInRange(v.envelope, words);
    PiecesInLine(Store(JoinHeader(HeaderOf(v.envelope, words))), FieldBytes(v.envelope, []), v.payload,
                 WordBytes(v.trailer));
  }

  lemma PiecesInLine(a: seq<Octet>, b: seq<Octet>, c: seq<Octet>, d: seq<Octet>)
    ensures a + (b + (c + d)) == a + b + c + d
  {
  }

  /** Writes a whole packet: payload first, then prologue, then trailer. */
  method EncodeEnvelope(v: View, out: array<Octet>) returns (r: Result<nat>)
    modifies out
    ensures v.envelope.trailer != v.trailer.Some? ==> r == Err(InvalidArgument)
    ensures v.envelope.trailer == v.trailer.Some? ==>
              match MeasureEnvelope(v.envelope, |v.payload|)
              case Err(code) => r == Err(code)
              case Ok(size) => r == if out.Length < size then Err(ShortOutput) else Ok(size)
    ensures r.Ok? ==> Encodable(v) && Appended(old(out[..]), out[..], 0, Wire(v)) && |Wire(v)| == r.value
    ensures r.Err? ==> out[..] == old(out[..])
  {
    hide ValidEnvelope, Wire, WordBytes, Appended, MeasureEnvelope, PrologueWords, PrologueBytes, Store;
    if v.envelope.trailer != v.trailer.Some? {
      return Err(InvalidArgument);
    }
    var measured := MeasureEnvelope(v.envelope, |v.payload|);
    if measured.Err? {
      return Err(measured.error);
    }
    var size := measured.value;
    if out.Length < size {
      return Err(ShortOutput);
    }
    WritePieces(v, size, out);
    return Ok(size);
  }

  method WritePieces(v: View, size: nat, out: array<Octet>)
    requires Encodable(v) && MeasureEnvelope(v.envelope, |v.payload|) == Ok(size) && size <= out.Length
    modifies out
    ensures |Wire(v)| == size && Appended(old(out[..]), out[..], 0, Wire(v))
  {
    hide ValidEnvelope, Wire, WordBytes, Appended, MeasureEnvelope, PrologueWords, PrologueBytes, Store;
    PiecesMakeWire(v);
    WordBytesSize(v.trailer);
    var words := size / 4;
    ghost var front, back := PrologueBytes(v.envelope, words), WordBytes(v.trailer);
    assert |Wire(v)| == |front| + |v.payload| + |back|;
    var start := size - |v.payload| - if v.envelope.trailer then 4 else 0;
    ghost var was := out[..];
    Copy(v.payload, out, start);
    ghost var one := out[..];
    var offset := WritePrologue(v.envelope, words, out);
    ghost var two := out[..];
    Swapped(was, one, two, front, v.payload);
    assert |front + v.payload| == offset + |v.payload|;
    offset := PutOption(out, offset + |v.payload|, v.trailer);
    AppendedTwice(was, two, out[..], 0, front + v.payload, back);
  }

  /** Writing the second part first gives the same. */
  lemma Swapped(was: seq<Octet>, one: seq<Octet>, two: seq<Octet>, a: seq<Octet>, b: seq<Octet>)
    requires Appended(was, one, |a|, b) && Appended(one, two, 0, a)
    ensures Appended(was, two, 0, a + b)
  {
    assert one[|a|..] == b + was[|a| + |b|..];
  }

  /** Writes the prologue of a packet whose payload is sent from elsewhere. */
  method EncodePrologue(e: Envelope, payload: nat, out: array<Octet>) returns (r: Result<nat>)
    modifies out
    ensures match MeasureEnvelope(e, payload)
            case Err(code) => r == Err(code)
            case Ok(size) =>
              r == if out.Length < 4 * PrologueWords(e) then Err(ShortOutput) else Ok(4 * PrologueWords(e))
    ensures r.Ok? ==> ValidEnvelope(e) && MeasureEnvelope(e, payload).value / 4 < 0x1_0000
                      && |PrologueBytes(e, MeasureEnvelope(e, payload).value / 4)| == r.value
                      && Appended(old(out[..]), out[..], 0, PrologueBytes(e, MeasureEnvelope(e, payload).value / 4))
    ensures r.Err? ==> out[..] == old(out[..])
  {
    var measured := MeasureEnvelope(e, payload);
    if measured.Err? {
      return Err(measured.error);
    }
    MeasureIsValid(e, payload);
    hide ValidEnvelope, PrologueWords, PrologueBytes, MeasureEnvelope, Appended;
    var prefix := measured.value - payload - if e.trailer then 4 else 0;
    if out.Length < prefix {
      return Err(ShortOutput);
    }
    var offset := WritePrologue(e, measured.value / 4, out);
    return Ok(offset);
  }

  method EncodeTrailer(trailer: Word, out: array<Octet>) returns (r: Result<nat>)
    modifies out
    ensures r == if out.Length < 4 then Err(ShortOutput) else Ok(4)
    ensures r.Ok? ==> Appended(old(out[..]), out[..], 0, Store(trailer))
    ensures r.Err? ==> out[..] == old(out[..])
  {
    if out.Length < 4 {
      return Err(ShortOutput);
    }
    var next := Put(out, 0, trailer);
    return Ok(4);
  }
}
