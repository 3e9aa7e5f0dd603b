/**
 Where the parts of a packet stand on the wire, bit by bit and byte by byte, as sections 5.1 and 8.2 of
 ANSI/VITA 49.2 draw them (include/vita/codec/wire.hpp).
 */
module WireLayout {
  import opened Core
  import opened Powers
  import opened Dyadic
  import opened Envelopes
  import opened EnvelopeRoundTrip
  import opened EnvelopeCodec

  /** A word with its most significant byte first. */
  ghost function BigEndian(w: nat): seq<nat> {
    [w / 0x100_0000 % 256, w / 0x1_0000 % 256, w / 256 % 256, w % 256]
  }

  ghost function BytesOf(words: seq<nat>): seq<nat> {
    if words == [] then [] else BigEndian(words[0]) + BytesOf(words[1..])
  }

  /** The first word: packet type, indicators, timestamp kinds, count and size. */
  ghost function HeaderWord(e: Envelope, words: nat): nat {
    e.kind * 0x1000_0000
    + (if e.classId.Some? then 0x800_0000 else 0)
    + (if (e.kind < 4 && e.trailer) || (e.kind > 5 && e.ack) then 0x400_0000 else 0)
    + (if e.kind < 6 && e.nd0 then 0x200_0000 else 0)
    + (if (e.kind < 4 && e.spectrum) || (e.kind in {4, 5} && e.tsm) || (e.kind > 5 && e.cancel) then 0x100_0000 else 0)
    + e.timestamp.tsi * 0x40_0000 + e.timestamp.tsf * 0x10_0000 + e.packetCount * 0x1_0000 + words
  }

  ghost function IdentifierWords(id: Identifier): seq<nat> {
    match id.kind
    case Absent => []
    case ShortId => [id.w0]
    case Uuid => [id.w0, id.w1, id.w2, id.w3]
  }

  ghost function ClassWords(c: Option<ClassId>): seq<nat> {
    if c.None? then []
    else
      [c.value.padBits as int * 0x800_0000 + c.value.oui,
       c.value.informationClass as int * 0x1_0000 + c.value.packetClass]
  }

  ghost function TimeWords(t: Timestamp): seq<nat> {
    (if t.tsi > 0 then [t.integer] else [])
    + (if t.tsf > 0 then [t.fractional / 0x1_0000_0000, t.fractional % 0x1_0000_0000] else [])
  }

  ghost function CommandWords(c: Option<Command>): seq<nat> {
    if c.None? then []
    else [c.value.cam, c.value.messageId] + IdentifierWords(c.value.controllee) + IdentifierWords(c.value.controller)
  }

  ghost function StreamWords(e: Envelope): seq<nat> {
    if e.streamId.Some? then [e.streamId.value] else []
  }

  /** The words between the header and the payload. */
  ghost function FieldWords(e: Envelope): seq<nat> {
    StreamWords(e) + ClassWords(e.classId) + TimeWords(e.timestamp) + CommandWords(e.command)
  }

  lemma StoreIsBigEndian(w: Word)
    ensures Store(w) == BigEndian(w)
  {
  }

  lemma {:induction false} BytesAppend(a: seq<nat>, b: seq<nat>)
    ensures BytesOf(a + b) == BytesOf(a) + BytesOf(b)
  {
    hide BigEndian, BytesOf;
    if a == [] {
      assert a + b == b;
      NoWords();
    } else {
      assert (a + b)[1..] == a[1..] + b && (a + b)[0] == a[0];
      BytesAppend(a[1..], b);
      FirstWord(a);
      FirstWord(a + b);
      InLine(BigEndian(a[0]), BytesOf(a[1..]), BytesOf(b));
    }
  }

  lemma FirstWord(words: seq<nat>)
    requires words != []
    ensures BytesOf(words) == BigEndian(words[0]) + BytesOf(words[1..])
  {
  }

  lemma InLine(a: seq<nat>, b: seq<nat>, c: seq<nat>)
    ensures a + (b + c) == a + b + c
  {
  }

  lemma OneWord(w: Word)
    ensures BytesOf([w]) == Store(w)
  {
    hide Store, BigEndian;
    StoreIsBigEndian(w);
    assert BytesOf([]) == [];
    assert [w][1..] == [];
  }

  lemma TwoWords(a: Word, b: Word)
    ensures BytesOf([a, b]) == Store(a) + Store(b)
  {
    hide Store, BytesOf;
    OneWord(a);
    OneWord(b);
    BytesAppend([a], [b]);
    assert [a] + [b] == [a, b];
  }

  lemma IdentifierIs(id: Identifier)
    ensures BytesOf(IdentifierWords(id)) == IdentifierBytes(id)
  {
    hide Store;
    match id.kind
    case Absent =>
    case ShortId => OneWord(id.w0);
    case Uuid =>
      hide BytesOf;
      TwoWords(id.w0, id.w1);
      TwoWords(id.w2, id.w3);
      BytesAppend([id.w0, id.w1], [id.w2, id.w3]);
      assert [id.w0, id.w1] + [id.w2, id.w3] == [id.w0, id.w1, id.w2, id.w3];
  }

  lemma HeaderIs(e: Envelope, words: nat)
    requires ValidEnvelope(e) && words < 0x1_0000
    ensures HeaderRange(HeaderOf(e, words)) && JoinHeader(HeaderOf(e, words)) == HeaderWord(e, words)
  {
    hide ValidCam, ValidIdentifier;
    HeaderInRange(e, words);
  }

  lemma PlainIs(e: Envelope)
    requires ValidEnvelope(e)
    ensures BytesOf(StreamWords(e)) == WordBytes(e.streamId)
    ensures BytesOf(ClassWords(e.classId)) == ClassBytes(e.classId)
    ensures BytesOf(TimeWords(e.timestamp)) == IntegerBytes(e.timestamp) + FractionBytes(e.timestamp)
  {
    hide Store, ValidCam, ValidIdentifier, BytesOf;
    NoWords();
    if e.streamId.Some? { OneWord(e.streamId.value); }
    if e.classId.Some? { TwoWords(ClassHead(e.classId.value), ClassTail(e.classId.value)); }
    var t := e.timestamp;
    var integer, fraction := if t.tsi > 0 then [t.integer] else [],
        if t.tsf > 0 then [t.fractional / 0x1_0000_0000, t.fractional % 0x1_0000_0000] else [];
    OneWord(t.integer);
    TwoWords(t.fractional / 0x1_0000_0000, t.fractional % 0x1_0000_0000);
    BytesAppend(integer, fraction);
  }

  lemma NoWords()
    ensures BytesOf([]) == []
  {
  }

  lemma CommandIs(c: Option<Command>)
    ensures BytesOf(CommandWords(c)) == CommandBytes(c, [])
  {
    hide Store, BytesOf, IdentifierBytes, IdentifierWords;
    NoWords();
    if c.Some? {
      var x, y := IdentifierWords(c.value.controllee), IdentifierWords(c.value.controller);
      TwoWords(c.value.cam, c.value.messageId);
      IdentifierIs(c.value.controllee);
      IdentifierIs(c.value.controller);
      BytesAppend([c.value.cam, c.value.messageId] + x, y);
      BytesAppend([c.value.cam, c.value.messageId], x);
    }
  }

  lemma FieldsAre(e: Envelope)
    requires ValidEnvelope(e)
    ensures BytesOf(FieldWords(e)) == FieldBytes(e, [])
  {
    hide ValidEnvelope, BytesOf, StreamWords, ClassWords, TimeWords, CommandWords, WordBytes, ClassBytes, IntegerBytes,
         FractionBytes, CommandBytes;
    PlainIs(e);
    CommandIs(e.command);
    ValidParts(e);
    var a, b, c, d := StreamWords(e), ClassWords(e.classId), TimeWords(e.timestamp), CommandWords(e.command);
    BytesAppend(a + b + c, d);
    BytesAppend(a + b, c);
    BytesAppend(a, b);
  }

  /** Which packet types carry a stream identifier and a command, and what every packet satisfies. */
  lemma PartsByType(v: View)
    requires Encodable(v)
    ensures v.envelope.kind < 8 && (v.envelope.streamId.Some? <==> v.envelope.kind in {1, 3, 4, 5, 6, 7})
    ensures v.envelope.command.Some? <==> v.envelope.kind in {6, 7}
    ensures v.trailer.Some? <==> v.envelope.trailer
    ensures v.envelope.trailer ==> v.envelope.kind < 4
    ensures |v.payload| % 4 == 0 && (v.envelope.kind < 4 ==> v.payload != [])
  {
    MeasureIsValid(v.envelope, |v.payload|);
    hide ValidCam, ValidIdentifier, PrologueWords;
  }

  /** The packet on the wire: every part in its place, every word with its most significant byte first. */
  lemma WireIs(v: View)
    requires Encodable(v)
    ensures var size := |Wire(v)|;
            && size == 4 + 4 * |FieldWords(v.envelope)| + |v.payload| + (if v.trailer.Some? then 4 else 0)
            && size % 4 == 0 && size <= 4 * 65535
            && Wire(v) == BigEndian(HeaderWord(v.envelope, size / 4)) + BytesOf(FieldWords(v.envelope)) + v.payload +
                          (if v.trailer.Some? then BigEndian(v.trailer.value) else [])
  {
    hide ValidEnvelope, FieldBytes, JoinHeader, HeaderOf, HeaderRange, Store, PrologueWords, BigEndian, BytesOf,
         FieldWords, HeaderWord;
    PiecesMakeWire(v);
    var size := |Wire(v)|;
    HeaderIs(v.envelope, size / 4);
    StoreIsBigEndian(JoinHeader(HeaderOf(v.envelope, size / 4)));
    FieldsAre(v.envelope);
    BytesSize(FieldWords(v.envelope));
    if v.trailer.Some? {
      StoreIsBigEndian(v.trailer.value);
    }
  }

  lemma {:induction false} BytesSize(words: seq<nat>)
    ensures |BytesOf(words)| == 4 * |words|
  {
    if words != [] {
      BytesSize(words[1..]);
    }
  }

  // ----- The command control word -----

  /** Bit `k` of a word. */
  ghost predicate Bit(w: nat, k: nat) {
    w / Pow2(k) % 2 == 1
  }

  /** Bits that are reserved in a command's control word. */
  ghost predicate ReservedBit(e: Envelope, k: nat) {
    || k == 21 || k == 15 || k == 8 || k == 9 || k == 0
    || (k in {10, 11} && !e.ack) || (1 <= k < 8 && e.kind != 7)
  }

  lemma {:induction false} BitsZero(w: nat, low: nat, width: nat)
    ensures Bits(w, low, width) == 0 <==> forall k :: low <= k < low + width ==> !Bit(w, k)
  {
    hide Shr, Low, Pow2, Bit;
    if width == 0 {
      SplitUnique(Shr(w, low), 0, Shr(w, low), 0);
    } else {
      BitsZero(w, low, width - 1);
      LowNext(Shr(w, low), width - 1);
      BitAt(w, low, width - 1);
    }
  }

  lemma LowNext(x: nat, n: nat)
    ensures Low(x, n + 1) == Low(x, n) + if Shr(x, n) % 2 == 1 then Pow2(n) else 0
  {
    hide Shl, Shr, Low, Pow2;
    var k, r := Shr(x, n), Low(x, n);
    Pow2Double(n + 1);
    ShlAdd(2 * (k / 2), k % 2, n);
    ShlDouble(k / 2, n);
    ShlOne(n);
    ShlZero(n);
    SplitUnique(x, n + 1, k / 2, Shl(k % 2, n) + r);
  }

  lemma BitAt(w: nat, low: nat, n: nat)
    ensures Shr(Shr(w, low), n) % 2 == 1 <==> Bit(w, low + n)
  {
    hide Low;
    ShrTwice(w, low, n);
    ShrDivides(w, low + n);
  }

  lemma {:induction false} ShrTwice(w: nat, a: nat, b: nat)
    ensures Shr(Shr(w, a), b) == Shr(w, a + b)
  {
    if b > 0 {
      ShrTwice(w, a, b - 1);
    }
  }

  lemma FlagIsBit(w: nat, k: nat)
    ensures Flag(w, k) <==> Bit(w, k)
  {
    ShrDivides(w, k);
  }

  /** The control words that section 8.2 allows. */
  lemma CamMeaning(e: Envelope)
    requires e.command.Some?
    ensures var cam := e.command.value.cam;
            var timing := cam / Pow2(12) % Pow2(3);
            ValidCam(e) <==>
            && (forall k :: 0 <= k < 32 && ReservedBit(e, k) ==> !Bit(cam, k))
            && !(Bit(cam, 23) && Bit(cam, 24))
            && (timing <= 4 || (timing == 7 && e.ack))
            && (timing > 0 && !e.ack ==> e.timestamp.tsi > 0 || e.timestamp.tsf > 0)
            && (e.ack ==>
                  && (Bit(cam, 18) || Bit(cam, 19) || Bit(cam, 20))
                  && !(Bit(cam, 18) && Bit(cam, 19)) && !(Bit(cam, 18) && Bit(cam, 20))
                  && !(Bit(cam, 19) && Bit(cam, 20))
                  && (Bit(cam, 18) ==> !Bit(cam, 17) && !Bit(cam, 16)))
            && (e.cancel && !e.ack ==>
                  && Bit(cam, 24) && !Bit(cam, 23) && Bit(cam, 27) && !Bit(cam, 20)
                  && (Bit(cam, 18) ==> Bit(cam, 19)))
  {
    hide Shr, Low, Pow2, Bit, Flag, Bits;
    var cam := e.command.value.cam;
    BitsZero(cam, 8, if e.ack then 2 else 4);
    BitsZero(cam, 0, if e.kind == 7 then 1 else 8);
    TimingBits(cam);
    TwoBits(cam, 23);
    ThreeBits(cam, 18);
    FlagIsBit(cam, 21);
    FlagIsBit(cam, 15);
    FlagIsBit(cam, 27);
    FlagIsBit(cam, 20);
    FlagIsBit(cam, 19);
    FlagIsBit(cam, 18);
    FlagIsBit(cam, 17);
    FlagIsBit(cam, 16);
  }

  lemma TimingBits(w: nat)
    ensures Bits(w, 12, 3) == w / Pow2(12) % Pow2(3)
  {
    hide Shr, Low;
    ShrDivides(w, 12);
    ShrDivides(Shr(w, 12), 3);
  }

  lemma TwoBits(w: nat, low: nat)
    ensures Bits(w, low, 2) == (if Bit(w, low) then 1 else 0) + if Bit(w, low + 1) then 2 else 0
  {
    hide Shr, Low, Bit;
    var x := Shr(w, low);
    SplitUnique(x, 0, x, 0);
    LowNext(x, 0);
    LowNext(x, 1);
    BitAt(w, low, 0);
    BitAt(w, low, 1);
    assert Pow2(0) == 1 && Pow2(1) == 2;
  }

  lemma ThreeBits(w: nat, low: nat)
    ensures Bits(w, low, 3) ==
            (if Bit(w, low) then 1 else 0) + (if Bit(w, low + 1) then 2 else 0) + if Bit(w, low + 2) then 4 else 0
  {
    hide Shr, Low, Bit;
    TwoBits(w, low);
    LowNext(Shr(w, low), 2);
    BitAt(w, low, 2);
    assert Pow2(2) == 4;
  }
}
