/** Decoding and encoding of envelopes undo each other (include/vita/codec/wire.hpp). */
module EnvelopeRoundTrip {
  import opened Core
  import opened Envelopes

  // ----- Each field there and back -----

  lemma WordThere(w: Word, rest: seq<Octet>)
    ensures TakeWord(Store(w) + rest) == Ok((w, rest))
  {
    LoadStore(w, rest);
  }

  lemma WordBack(bs: seq<Octet>)
    requires |bs| >= 4
    ensures bs == Store(Load(bs)) + bs[4..]
  {
    StoreLoad(bs);
  }

  lemma TwoWordsThere(a: Word, b: Word, rest: seq<Octet>)
    ensures var bs := Store(a) + Store(b) + rest;
            |bs| >= 8 && Load(bs) == a && Load(bs[4..]) == b && bs[8..] == rest
  {
    var bs := Store(a) + Store(b) + rest;
    assert bs == Store(a) + (Store(b) + rest);
    LoadStore(a, Store(b) + rest);
    assert bs[4..] == Store(b) + rest;
    LoadStore(b, rest);
  }

  lemma TwoWordsBack(bs: seq<Octet>)
    requires |bs| >= 8
    ensures bs == Store(Load(bs)) + Store(Load(bs[4..])) + bs[8..]
  {
    hide Store, Load;
    WordBack(bs);
    WordBack(bs[4..]);
    assert bs[4..][4..] == bs[8..];
  }

  lemma StreamIdThere(sid: Option<Word>, rest: seq<Octet>)
    ensures TakeStreamId(sid.Some?, WordBytes(sid) + rest) == Ok((sid, rest))
  {
    hide Store, Load;
    assert [] + rest == rest;
    if sid.Some? {
      WordThere(sid.value, rest);
    }
  }

  lemma StreamIdBack(present: bool, bs: seq<Octet>)
    requires TakeStreamId(present, bs).Ok?
    ensures var (sid, rest) := TakeStreamId(present, bs).value; bs == WordBytes(sid) + rest && sid.Some? == present
  {
    hide Store, Load;
    if present {
      WordBack(bs);
    }
  }

  predicate ValidClass(c: Option<ClassId>) { c.Some? ==> c.value.oui <= 0xFF_FFFF && c.value.padBits <= 31 }

  lemma ClassDigits(c: ClassId)
    requires c.oui <= 0xFF_FFFF && c.padBits <= 31
    ensures ClassHead(c) / 0x100_0000 % 8 == 0 && ClassHead(c) % 0x100_0000 == c.oui
    ensures ClassHead(c) / 0x800_0000 == c.padBits
    ensures ClassTail(c) / 0x1_0000 == c.informationClass && ClassTail(c) % 0x1_0000 == c.packetClass
  {
    assert ClassHead(c) / 0x100_0000 == 8 * c.padBits as int;
  }

  lemma DigitsClass(a: Word, b: Word)
    requires a / 0x100_0000 % 8 == 0
    ensures var c := ClassId(a % 0x100_0000, b / 0x1_0000, b % 0x1_0000, a / 0x800_0000);
            c.oui <= 0xFF_FFFF && c.padBits <= 31 && ClassHead(c) == a && ClassTail(c) == b
  {
    assert a / 0x800_0000 == a / 0x100_0000 / 8;
  }

  lemma ClassThere(c: Option<ClassId>, rest: seq<Octet>)
    requires ValidClass(c)
    ensures TakeClass(c.Some?, ClassBytes(c) + rest) == Ok((c, rest))
  {
    hide Store, Load, ClassHead, ClassTail;
    assert [] + rest == rest;
    if c.Some? {
      TwoWordsThere(ClassHead(c.value), ClassTail(c.value), rest);
      ClassDigits(c.value);
    }
  }

  lemma ClassBack(present: bool, bs: seq<Octet>)
    requires TakeClass(present, bs).Ok?
    ensures var (c, rest) := TakeClass(present, bs).value;
            ValidClass(c) && bs == ClassBytes(c) + rest && c.Some? == present
  {
    hide Store, Load, ClassHead, ClassTail;
    if present {
      TwoWordsBack(bs);
      DigitsClass(Load(bs), Load(bs[4..]));
    }
  }

  lemma IntegerThere(t: Timestamp, rest: seq<Octet>)
    ensures TakeInteger(t.tsi, IntegerBytes(t) + rest) == Ok((if t.tsi == 0 then 0 else t.integer, rest))
  {
    hide Store, Load;
    assert [] + rest == rest;
    if t.tsi != 0 {
      WordThere(t.integer, rest);
    }
  }

  lemma IntegerBack(tsi: nat, bs: seq<Octet>, t: Timestamp)
    requires TakeInteger(tsi, bs).Ok? && t.tsi == tsi && t.integer == TakeInteger(tsi, bs).value.0
    ensures bs == IntegerBytes(t) + TakeInteger(tsi, bs).value.1 && (tsi == 0 ==> t.integer == 0)
  {
    hide Store, Load;
    if tsi != 0 {
      WordBack(bs);
    }
  }

  lemma FractionThere(t: Timestamp, rest: seq<Octet>)
    ensures TakeFraction(t.tsf, FractionBytes(t) + rest) == Ok((if t.tsf == 0 then 0 else t.fractional, rest))
  {
    hide Store, Load;
    assert [] + rest == rest;
    if t.tsf != 0 {
      TwoWordsThere(t.fractional / 0x1_0000_0000, t.fractional % 0x1_0000_0000, rest);
    }
  }

  lemma FractionBack(tsf: nat, bs: seq<Octet>, t: Timestamp)
    requires TakeFraction(tsf, bs).Ok? && t.tsf == tsf && t.fractional == TakeFraction(tsf, bs).value.0
    ensures bs == FractionBytes(t) + TakeFraction(tsf, bs).value.1 && (tsf == 0 ==> t.fractional == 0)
  {
    hide Store, Load;
    if tsf != 0 {
      TwoWordsBack(bs);
      assert t.fractional / 0x1_0000_0000 == Load(bs) && t.fractional % 0x1_0000_0000 == Load(bs[4..]);
    }
  }

  lemma IdentifierThere(cam: Word, enable: nat, uuid: nat, id: Identifier, rest: seq<Octet>)
    requires ValidIdentifier(cam, id, enable, uuid)
    ensures TakeIdentifier(cam, enable, uuid, IdentifierBytes(id) + rest) == Ok((NormalId(id), rest))
  {
    hide Store, Load, Flag;
    assert [] + rest == rest;
    match id.kind
    case Absent =>
    case ShortId => WordThere(id.w0, rest);
    case Uuid =>
      var bs := IdentifierBytes(id) + rest;
      assert bs == Store(id.w0) + Store(id.w1) + (Store(id.w2) + Store(id.w3) + rest);
      TwoWordsThere(id.w0, id.w1, Store(id.w2) + Store(id.w3) + rest);
      TwoWordsThere(id.w2, id.w3, rest);
      assert bs[8..][4..] == bs[12..] && bs[8..][8..] == bs[16..];
  }

  lemma IdentifierBack(cam: Word, enable: nat, uuid: nat, bs: seq<Octet>)
    requires TakeIdentifier(cam, enable, uuid, bs).Ok?
    ensures var (id, rest) := TakeIdentifier(cam, enable, uuid, bs).value;
            bs == IdentifierBytes(id) + rest && NormalId(id) == id
  {
    hide Store, Load, Flag;
    if Flag(cam, enable) && !Flag(cam, uuid) {
      WordBack(bs);
    } else if Flag(cam, enable) {
      TwoWordsBack(bs);
      TwoWordsBack(bs[8..]);
      assert bs[8..][4..] == bs[12..] && bs[8..][8..] == bs[16..];
    }
  }

  predicate ValidCommand(c: Option<Command>) {
    c.Some? ==> ValidIdentifier(c.value.cam, c.value.controllee, 31, 30)
                && ValidIdentifier(c.value.cam, c.value.controller, 29, 28)
  }

  function NormalCommand(c: Option<Command>): Option<Command> {
    if c.None? then None
    else Some(c.value.(controllee := NormalId(c.value.controllee), controller := NormalId(c.value.controller)))
  }

  lemma CommandThere(c: Option<Command>, rest: seq<Octet>)
    requires ValidCommand(c)
    ensures TakeCommand(c.Some?, CommandBytes(c, rest)) == Ok((NormalCommand(c), rest))
  {
    hide Store, Load, IdentifierBytes, TakeIdentifier, NormalId, ValidIdentifier;
    if c.Some? {
      var x := c.value;
      var last := IdentifierBytes(x.controller) + rest;
      var ids := IdentifierBytes(x.controllee) + last;
      assert CommandBytes(c, rest) == Store(x.cam) + Store(x.messageId) + ids;
      TwoWordsThere(x.cam, x.messageId, ids);
      IdentifierThere(x.cam, 31, 30, x.controllee, last);
      IdentifierThere(x.cam, 29, 28, x.controller, rest);
    }
  }

  lemma CommandBack(present: bool, bs: seq<Octet>)
    requires TakeCommand(present, bs).Ok?
    ensures var (c, rest) := TakeCommand(present, bs).value;
            bs == CommandBytes(c, rest) && NormalCommand(c) == c && c.Some? == present
  {
    hide Store, Load, IdentifierBytes, TakeIdentifier, NormalId;
    if present {
      var cam := Load(bs);
      TwoWordsBack(bs);
      IdentifierBack(cam, 31, 30, bs[8..]);
      IdentifierBack(cam, 29, 28, TakeIdentifier(cam, 31, 30, bs[8..]).value.1);
    }
  }

  // ----- The whole prologue -----

  lemma ValidParts(e: Envelope)
    requires ValidEnvelope(e)
    ensures ValidClass(e.classId) && ValidCommand(e.command) && (e.streamId.Some? <==> HasStreamId(e.kind))
    ensures (e.command.Some? <==> IsCommand(e.kind)) && e.kind <= 7
  {
    hide ValidCam, ValidIdentifier;
  }

  /** The header tells everything but the values of the fields. */
  lemma HeaderTells(e: Envelope, words: nat)
    requires ValidEnvelope(e) && words < 0x1_0000 && HeaderRange(HeaderOf(e, words))
    ensures FromHeader(HeaderOf(e, words)) ==
            e.(streamId := None, classId := None, timestamp := Timestamp(e.timestamp.tsi, e.timestamp.tsf, 0, 0),
               command := None)
    ensures !(!IsData(e.kind) && (if IsCommand(e.kind) then HeaderOf(e, words).b25 else HeaderOf(e, words).b26) == 1)
  {
    hide ValidCam, ValidIdentifier;
  }

  lemma FieldsThere(e: Envelope, words: nat, tail: seq<Octet>)
    requires ValidEnvelope(e) && words < 0x1_0000 && HeaderRange(HeaderOf(e, words))
    ensures TakeFields(HeaderOf(e, words), FieldBytes(e, tail)) == Ok((Normal(e), tail))
  {
    hide ValidEnvelope, FromHeader, TakeStreamId, TakeClass, TakeInteger, TakeFraction, TakeCommand, WordBytes,
         ClassBytes, IntegerBytes, FractionBytes, CommandBytes, NormalId;
    ValidParts(e);
    HeaderTells(e, words);
    var b4 := CommandBytes(e.command, tail);
    var b3 := FractionBytes(e.timestamp) + b4;
    var b2 := IntegerBytes(e.timestamp) + b3;
    var b1 := ClassBytes(e.classId) + b2;
    StreamIdThere(e.streamId, b1);
    ClassThere(e.classId, b2);
    IntegerThere(e.timestamp, b3);
    FractionThere(e.timestamp, b4);
    CommandThere(e.command, tail);
  }

  lemma FieldsBack(h: Header, bs: seq<Octet>)
    requires HeaderRange(h) && TakeFields(h, bs).Ok? && ValidEnvelope(TakeFields(h, bs).value.0)
    ensures var (e, tail) := TakeFields(h, bs).value; bs == FieldBytes(e, tail) && Normal(e) == e
  {
    hide ValidEnvelope, TakeStreamId, TakeClass, TakeInteger, TakeFraction, TakeCommand, WordBytes, ClassBytes,
         IntegerBytes, FractionBytes, CommandBytes, NormalId;
    var (e, tail) := TakeFields(h, bs).value;
    StreamIdBack(HasStreamId(h.kind), bs);
    var b1 := TakeStreamId(HasStreamId(h.kind), bs).value.1;
    ClassBack(h.class_ == 1, b1);
    var b2 := TakeClass(h.class_ == 1, b1).value.1;
    IntegerBack(h.tsi, b2, e.timestamp);
    var b3 := TakeInteger(h.tsi, b2).value.1;
    FractionBack(h.tsf, b3, e.timestamp);
    var b4 := TakeFraction(h.tsf, b3).value.1;
    CommandBack(IsCommand(h.kind), b4);
  }

  // ----- Sizes -----

  lemma FieldsSize(e: Envelope, tail: seq<Octet>)
    requires ValidEnvelope(e)
    ensures |FieldBytes(e, tail)| == 4 * PrologueWords(e) - 4 + |tail|
  {
    hide ValidEnvelope, Store, ClassHead, ClassTail;
    if e.command.Some? {
      IdentifierSize(e.command.value.controllee);
      IdentifierSize(e.command.value.controller);
    }
    hide IdentifierBytes;
  }

  lemma IdentifierSize(id: Identifier)
    ensures |IdentifierBytes(id)| == 4 * SizeWords(id)
  {
    hide Store;
  }

  lemma WireSize(v: View)
    requires Encodable(v)
    ensures |Wire(v)| == MeasureEnvelope(v.envelope, |v.payload|).value
  {
    hide ValidEnvelope, FieldBytes, JoinHeader, HeaderOf, PrologueWords;
    FieldsSize(v.envelope, v.payload + WordBytes(v.trailer));
  }

  // ----- Theorems -----

  lemma DecodeOf(wire: seq<Octet>, h: Header, v: View)
    requires |wire| >= 4 && SplitHeader(Load(wire)) == h && HeaderRange(h) && h.kind <= 7 && 4 * h.size == |wire|
    requires !(!IsData(h.kind) && (if IsCommand(h.kind) then h.b25 else h.b26) == 1)
    requires TakeFields(h, wire[4..]) == Ok((v.envelope, v.payload + WordBytes(v.trailer)))
    requires v.envelope.trailer == v.trailer.Some? && MeasureEnvelope(v.envelope, |v.payload|).Ok?
    ensures Decode(wire) == Ok(v)
  {
    hide SplitHeader, Load, TakeFields, MeasureEnvelope, Store;
    TailSplits(v);
  }

  lemma WireForm(v: View) returns (words: nat)
    requires Encodable(v)
    ensures ValidEnvelope(v.envelope) && words < 0x1_0000 && |Wire(v)| == 4 * words
    ensures HeaderRange(HeaderOf(v.envelope, words))
    ensures Wire(v) == Store(JoinHeader(HeaderOf(v.envelope, words))) +
            FieldBytes(v.envelope, v.payload + WordBytes(v.trailer))
  {
    MeasureIsValid(v.envelope, |v.payload|);
    hide ValidEnvelope, FieldBytes, JoinHeader, PrologueWords, HeaderOf, MeasureEnvelope, Store, WordBytes, HeaderRange;
    words := MeasureEnvelope(v.envelope, |v.payload|).value / 4;
    WireSize(v);
    HeaderInRange(v.envelope, words);
  }

  /** Decoding an encoded packet gives it back, but for what its header marks absent. */
  lemma EncodeThenDecode(v: View)
    requires Encodable(v)
    ensures Decode(Wire(v)) == Ok(v.(envelope := Normal(v.envelope)))
  {
    var e := v.envelope;
    var words := WireForm(v);
    var h := HeaderOf(e, words);
    hide ValidEnvelope, FieldBytes, JoinHeader, SplitHeader, TakeFields, Store, Load, PrologueWords, Decode, FromHeader,
      MeasureEnvelope, Wire;
    var tail := v.payload + WordBytes(v.trailer);
    LoadStore(JoinHeader(h), FieldBytes(e, tail));
    SplitJoin(h);
    HeaderTells(e, words);
    ValidParts(e);
    FieldsThere(e, words, tail);
    assert Wire(v)[4..] == FieldBytes(e, tail);
    NormalMeasures(e, |v.payload|);
    hide Normal, WordBytes;
    DecodeOf(Wire(v), h, v.(envelope := Normal(e)));
  }

  lemma TailSplits(v: View)
    ensures var tail := v.payload + WordBytes(v.trailer);
            if v.trailer.Some? then |tail| >= 4 && tail[..|tail| - 4] == v.payload
              && Load(tail[|tail| - 4..]) == v.trailer.value
            else tail == v.payload
  {
    if v.trailer.Some? {
      var tail := v.payload + WordBytes(v.trailer);
      assert tail[|tail| - 4..] == Store(v.trailer.value) + [];
      LoadStore(v.trailer.value, []);
    }
  }

  /** What is absent does not matter to validity or size. */
  lemma NormalMeasures(e: Envelope, payload: nat)
    ensures MeasureEnvelope(Normal(e), payload) == MeasureEnvelope(e, payload)
    ensures Normal(e).trailer == e.trailer
  {
    hide Bits, Flag;
  }

  lemma HeaderFromTells(h: Header, e: Envelope, words: nat)
    requires HeaderRange(h) && h.kind <= 7 && h.size == words
    requires !(!IsData(h.kind) && (if IsCommand(h.kind) then h.b25 else h.b26) == 1)
    requires e.classId.Some? == (h.class_ == 1)
    requires e == FromHeader(h).(streamId := e.streamId, classId := e.classId, timestamp := e.timestamp,
                                 command := e.command)
    requires e.timestamp.tsi == h.tsi && e.timestamp.tsf == h.tsf
    ensures HeaderOf(e, words) == h
  {
  }

  lemma FieldsShape(h: Header, bs: seq<Octet>)
    requires HeaderRange(h) && TakeFields(h, bs).Ok?
    ensures var e := TakeFields(h, bs).value.0;
            && e == FromHeader(h).(streamId := e.streamId, classId := e.classId, timestamp := e.timestamp,
                                   command := e.command)
            && e.timestamp.tsi == h.tsi && e.timestamp.tsf == h.tsf && e.classId.Some? == (h.class_ == 1)
  {
    hide TakeStreamId, TakeInteger, TakeFraction, TakeCommand, FromHeader, Load;
  }

  /** What acceptance means, step by step. */
  lemma DecodeParts(wire: seq<Octet>) returns (h: Header, rest: seq<Octet>)
    requires Decode(wire).Ok?
    ensures |wire| >= 4 && h == SplitHeader(Load(wire)) && HeaderRange(h) && h.kind <= 7 && 4 * h.size == |wire|
    ensures !(!IsData(h.kind) && (if IsCommand(h.kind) then h.b25 else h.b26) == 1)
    ensures TakeFields(h, wire[4..]) == Ok((Decode(wire).value.envelope, rest))
    ensures var v := Decode(wire).value;
            && MeasureEnvelope(v.envelope, |v.payload|).Ok? && v.envelope.trailer == v.trailer.Some?
            && rest == v.payload + WordBytes(v.trailer)
  {
    hide TakeFields, SplitHeader, MeasureEnvelope, Store, Load;
    h := SplitHeader(Load(wire));
    rest := TakeFields(h, wire[4..]).value.1;
    if Decode(wire).value.envelope.trailer {
      StoreLoad(rest[|rest| - 4..]);
      assert rest[|rest| - 4..][..4] == rest[|rest| - 4..];
    }
  }

  /** Every accepted packet is reproduced byte for byte by encoding what was decoded. */
  lemma DecodeThenEncode(wire: seq<Octet>)
    requires Decode(wire).Ok?
    ensures Encodable(Decode(wire).value) && Wire(Decode(wire).value) == wire
    ensures Normal(Decode(wire).value.envelope) == Decode(wire).value.envelope
  {
    hide Decode, FieldBytes, TakeFields, ValidEnvelope, FromHeader, SplitHeader, JoinHeader, Store, Load,
         PrologueWords, HeaderOf, WordBytes;
    var v := Decode(wire).value;
    var e := v.envelope;
    var h, rest := DecodeParts(wire);
    MeasureIsValid(e, |v.payload|);
    FieldsShape(h, wire[4..]);
    FieldsBack(h, wire[4..]);
    FieldsSize(e, rest);
    WordBytesSize(v.trailer);
    assert MeasureEnvelope(e, |v.payload|).value == |wire|;
    HeaderFromTells(h, e, h.size);
    JoinSplit(Load(wire));
    StoreLoad(wire);
    assert wire == wire[..4] + wire[4..];
  }

  lemma WordBytesSize(w: Option<Word>)
    ensures |WordBytes(w)| == if w.Some? then 4 else 0
  {
  }

  lemma MeasureIsValid(e: Envelope, payload: nat)
    requires MeasureEnvelope(e, payload).Ok?
    ensures ValidEnvelope(e)
  {
  }

  /** Different packets in canonical form have different bytes. */
  lemma WireIsInjective(v: View, w: View)
    requires Encodable(v) && Encodable(w) && Wire(v) == Wire(w)
    ensures v.(envelope := Normal(v.envelope)) == w.(envelope := Normal(w.envelope))
  {
    hide Wire, Decode, Normal;
    EncodeThenDecode(v);
    EncodeThenDecode(w);
  }

  /** Exactly the wires of packets are accepted. */
  lemma DecodesExactly(wire: seq<Octet>)
    ensures Decode(wire).Ok? <==> exists v :: Encodable(v) && Wire(v) == wire
  {
    hide Decode, Wire, MeasureEnvelope;
    if Decode(wire).Ok? {
      DecodeThenEncode(wire);
    }
    if v :| Encodable(v) && Wire(v) == wire {
      EncodeThenDecode(v);
    }
  }
}
