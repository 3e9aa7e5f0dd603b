/**
 Packet envelopes: the prologue of an ANSI/VITA 49.2 packet, its payload and trailer
 (include/vita/codec/wire.hpp).
 */
module Envelopes {
  import opened Core
  import opened Powers

  type Octet = x: int | 0 <= x < 256
  type Word = x: int | 0 <= x < 0x1_0000_0000
  type Half = x: int | 0 <= x < 0x1_0000

  // Packet types: 0 to 3 carry data, 4 and 5 context, 6 and 7 commands; even data types have no stream identifier.
  const EXTENSION_COMMAND: nat := 7

  datatype Timestamp = Timestamp(tsi: nat, tsf: nat, integer: Word, fractional: U64)

  datatype ClassId = ClassId(oui: Word, informationClass: Half, packetClass: Half, padBits: Octet)

  datatype IdentifierKind = Absent | ShortId | Uuid

  datatype Identifier = Identifier(kind: IdentifierKind, w0: Word, w1: Word, w2: Word, w3: Word)

  datatype Command = Command(cam: Word, messageId: Word, controllee: Identifier, controller: Identifier)

  datatype Envelope = Envelope(
    kind: Octet, packetCount: Octet, streamId: Option<Word>, classId: Option<ClassId>, timestamp: Timestamp,
    trailer: bool, nd0: bool, spectrum: bool, tsm: bool, ack: bool, cancel: bool, command: Option<Command>)

  /** What decoding shows: the envelope, its payload and its trailer. */
  datatype View = View(envelope: Envelope, payload: seq<Octet>, trailer: Option<Word>)

  predicate IsData(kind: nat) { kind <= 3 }
  predicate IsCommand(kind: nat) { kind >= 6 }
  predicate HasStreamId(kind: nat) { kind != 0 && kind != 2 }

  // ----- Validity -----

  /** Bits `low` to `low + width - 1` of a word. */
  function Bits(w: nat, low: nat, width: nat): nat { Low(Shr(w, low), width) }

  predicate Flag(w: nat, bit: nat) { Shr(w, bit) % 2 == 1 }

  /** The command control word is one the standard allows (section 8.2 of ANSI/VITA 49.2). */
  predicate ValidCam(e: Envelope)
    requires e.command.Some?
  {
    var cam := e.command.value.cam;
    var timing := Bits(cam, 12, 3);
    && !Flag(cam, 21) && !Flag(cam, 15)
    && Bits(cam, 8, if e.ack then 2 else 4) == 0
    && Bits(cam, 0, if e.kind == EXTENSION_COMMAND then 1 else 8) == 0
    && Bits(cam, 23, 2) != 3
    && (timing <= 4 || (e.ack && timing == 7))
    && (timing == 0 || e.ack || e.timestamp.tsi != 0 || e.timestamp.tsf != 0)
    && (e.ack ==> Bits(cam, 18, 3) in {1, 2, 4})
    && (e.ack && Flag(cam, 18) ==> !Flag(cam, 17) && !Flag(cam, 16))
    && (e.cancel && !e.ack ==>
          Bits(cam, 23, 2) == 2 && Flag(cam, 27) && !Flag(cam, 20) && (Flag(cam, 18) ==> Flag(cam, 19)))
  }

  function SizeWords(id: Identifier): nat {
    match id.kind
    case Absent => 0
    case ShortId => 1
    case Uuid => 4
  }

  predicate ValidIdentifier(cam: nat, id: Identifier, enable: nat, uuid: nat) {
    && (Flag(cam, enable) <==> id.kind != Absent)
    && (id.kind != Absent ==> (Flag(cam, uuid) <==> id.kind == Uuid))
    && (id.kind == Uuid ==> id.w0 != 0 || id.w1 != 0 || id.w2 != 0 || id.w3 != 0)
  }

  predicate ValidFlags(e: Envelope) {
    if IsData(e.kind) then !e.ack && !e.cancel && !e.tsm && e.command.None?
    else if IsCommand(e.kind) then !e.trailer && !e.nd0 && !e.spectrum && !e.tsm && e.command.Some?
    else !e.trailer && !e.ack && !e.cancel && !e.spectrum && e.command.None?
  }

  predicate ValidEnvelope(e: Envelope) {
    && e.kind <= 7 && e.packetCount <= 15 && e.timestamp.tsi <= 3 && e.timestamp.tsf <= 3
    && (HasStreamId(e.kind) <==> e.streamId.Some?)
    && (e.classId.Some? ==> e.classId.value.oui <= 0xFF_FFFF && e.classId.value.padBits <= 31)
    && ValidFlags(e)
    && (e.command.Some? ==>
          && ValidCam(e)
          && ValidIdentifier(e.command.value.cam, e.command.value.controllee, 31, 30)
          && ValidIdentifier(e.command.value.cam, e.command.value.controller, 29, 28))
  }

  /** Words of the prologue. */
  function PrologueWords(e: Envelope): nat {
    1 + (if e.streamId.Some? then 1 else 0) + (if e.classId.Some? then 2 else 0) +
      (if e.timestamp.tsi != 0 then 1 else 0)
    + (if e.timestamp.tsf != 0 then 2 else 0)
    + (if e.command.Some? then 2 + SizeWords(e.command.value.controllee) + SizeWords(e.command.value.controller) else 0)
  }

  /** Size of the whole packet in bytes. */
  function MeasureEnvelope(e: Envelope, payload: nat): (r: Result<nat>)
    ensures r.Ok? ==> r.value % 4 == 0 && 4 <= r.value <= 4 * 65535
                      && r.value == 4 * PrologueWords(e) + payload + if e.trailer then 4 else 0
  {
    if !ValidEnvelope(e) || payload % 4 != 0 || (IsData(e.kind) && payload == 0) then Err(InvalidArgument)
    else
      var words := PrologueWords(e) + (if e.trailer then 1 else 0) + payload / 4;
      if words > 65535 then Err(Overflow) else Ok(words * 4)
  }

  // ----- Words and bytes -----

  /** Big-endian bytes of a word. */
  function Store(w: Word): (b: seq<Octet>)
    ensures |b| == 4
  {
    var x: nat := w / 256;
    var y: nat := x / 256;
    [y / 256, y % 256, x % 256, w % 256]
  }

  function Load(b: seq<Octet>): Word
    requires |b| >= 4
  {
    var y: nat := Push(b[0], b[1]);
    var x: nat := Push(y, b[2]);
    Push(x, b[3])
  }

  function Push(high: nat, low: Octet): (r: nat)
    ensures r / 256 == high && r % 256 == low && r == 256 * high + low
  {
    256 * high + low
  }

  lemma LoadStore(w: Word, rest: seq<Octet>)
    ensures Load(Store(w) + rest) == w
  {
    hide Push;
    var b := Store(w) + rest;
    var x: nat := w / 256;
    var y: nat := x / 256;
    assert b[0] == y / 256 && b[1] == y % 256 && b[2] == x % 256 && b[3] == w % 256;
    assert Push(b[0], b[1]) == y;
    assert Push(y, b[2]) == x;
  }

  lemma StoreLoad(b: seq<Octet>)
    requires |b| >= 4
    ensures Store(Load(b)) == b[..4]
  {
    hide Push;
    var y: nat := Push(b[0], b[1]);
    var x: nat := Push(y, b[2]);
    var w := Load(b);
    assert w / 256 == x && x / 256 == y && y / 256 == b[0] as int;
    assert Store(w) == [b[0], b[1], b[2], b[3]];
  }

  // ----- The header word -----

  function Digit(flag: bool): nat { if flag then 1 else 0 }

  datatype Header = Header(kind: nat, class_: nat, b26: nat, b25: nat, b24: nat, tsi: nat, tsf: nat, count: nat,
                           size: nat)

  predicate HeaderRange(h: Header) {
    && h.kind < 16 && h.class_ < 2 && h.b26 < 2 && h.b25 < 2 && h.b24 < 2 && h.tsi < 4 && h.tsf < 4 && h.count < 16
    && h.size < 0x1_0000
  }

  /** The digits above the size, the count and so on, each shifted in from the right. */
  function JoinHeader(h: Header): Word
    requires HeaderRange(h)
  {
    var flags := (((h.kind * 2 + h.class_) * 2 + h.b26) * 2 + h.b25) * 2 + h.b24;
    (((flags * 4 + h.tsi) * 4 + h.tsf) * 16 + h.count) * 0x1_0000 + h.size
  }

  function SplitHeader(w: Word): (h: Header)
    ensures HeaderRange(h)
  {
    var a: nat := w / 0x1_0000;
    var b: nat := a / 16;
    var c: nat := b / 4;
    var flags: nat := c / 4;
    assert a < 0x1_0000 && b < 0x1000 && c < 0x400 && flags < 0x100;
    Header(flags / 16, flags / 8 % 2, flags / 4 % 2, flags / 2 % 2, flags % 2, c % 4, b % 4, a % 16, w % 0x1_0000)
  }

  lemma FlagDigits(k: nat, a: nat, b: nat, c: nat, d: nat)
    requires k < 16 && a < 2 && b < 2 && c < 2 && d < 2
    ensures var f := (((k * 2 + a) * 2 + b) * 2 + c) * 2 + d;
            f < 256 && f / 16 == k && f / 8 % 2 == a && f / 4 % 2 == b && f / 2 % 2 == c && f % 2 == d
  {
  }

  lemma FlagsJoin(f: nat)
    requires f < 256
    ensures (((f / 16 * 2 + f / 8 % 2) * 2 + f / 4 % 2) * 2 + f / 2 % 2) * 2 + f % 2 == f
  {
    assert f / 16 * 2 + f / 8 % 2 == f / 8;
    assert f / 8 * 2 + f / 4 % 2 == f / 4;
    assert f / 4 * 2 + f / 2 % 2 == f / 2;
  }

  lemma SplitJoin(h: Header)
    requires HeaderRange(h)
    ensures SplitHeader(JoinHeader(h)) == h
  {
    var flags := (((h.kind * 2 + h.class_) * 2 + h.b26) * 2 + h.b25) * 2 + h.b24;
    FlagDigits(h.kind, h.class_, h.b26, h.b25, h.b24);
    var c := flags * 4 + h.tsi;
    var b := c * 4 + h.tsf;
    var a := b * 16 + h.count;
    var w := JoinHeader(h);
    assert w / 0x1_0000 == a && w % 0x1_0000 == h.size;
    assert a / 16 == b && a % 16 == h.count;
    assert b / 4 == c && b % 4 == h.tsf;
    assert c / 4 == flags && c % 4 == h.tsi;
  }

  lemma JoinSplit(w: Word)
    ensures JoinHeader(SplitHeader(w)) == w
  {
    var a: nat := w / 0x1_0000;
    var b: nat := a / 16;
    var c: nat := b / 4;
    assert c / 4 < 256;
    FlagsJoin(c / 4);
    assert c / 4 * 4 + c % 4 == c && b / 4 * 4 + b % 4 == b && a / 16 * 16 + a % 16 == a;
  }

  // ----- Encoding -----

  function HeaderOf(e: Envelope, words: nat): Header {
    Header(e.kind, Digit(e.classId.Some?),
           Digit(if IsData(e.kind) then e.trailer else IsCommand(e.kind) && e.ack),
           Digit(!IsCommand(e.kind) && e.nd0),
           Digit(if IsData(e.kind) then e.spectrum else if IsCommand(e.kind) then e.cancel else e.tsm),
           e.timestamp.tsi, e.timestamp.tsf, e.packetCount, words)
  }

  function WordBytes(w: Option<Word>): seq<Octet> { if w.Some? then Store(w.value) else [] }

  function ClassBytes(c: Option<ClassId>): seq<Octet>
    requires c.Some? ==> c.value.oui <= 0xFF_FFFF && c.value.padBits <= 31
  {
    if c.Some? then Store(ClassHead(c.value)) + Store(ClassTail(c.value)) else []
  }

  function ClassHead(c: ClassId): Word
    requires c.oui <= 0xFF_FFFF && c.padBits <= 31
  {
    c.padBits as int * 0x800_0000 + c.oui
  }

  function ClassTail(c: ClassId): Word { c.informationClass as int * 0x1_0000 + c.packetClass }

  function IntegerBytes(t: Timestamp): seq<Octet> { if t.tsi != 0 then Store(t.integer) else [] }

  function FractionBytes(t: Timestamp): seq<Octet> {
    if t.tsf != 0 then Store(t.fractional / 0x1_0000_0000) + Store(t.fractional % 0x1_0000_0000) else []
  }

  function IdentifierBytes(id: Identifier): seq<Octet> {
    match id.kind
    case Absent => []
    case ShortId => Store(id.w0)
    case Uuid => Store(id.w0) + (Store(id.w1) + (Store(id.w2) + Store(id.w3)))
  }

  /** The fields after the header, and what follows them. */
  function FieldBytes(e: Envelope, tail: seq<Octet>): seq<Octet>
    requires ValidEnvelope(e)
  {
    WordBytes(e.streamId) + (ClassBytes(e.classId) +
                             (IntegerBytes(e.timestamp) + (FractionBytes(e.timestamp) + CommandBytes(e.command, tail))))
  }

  function CommandBytes(c: Option<Command>, tail: seq<Octet>): seq<Octet> {
    if c.None? then tail
    else
      Store(c.value.cam) +
      (Store(c.value.messageId) + (IdentifierBytes(c.value.controllee) + (IdentifierBytes(c.value.controller) + tail)))
  }

  lemma HeaderInRange(e: Envelope, words: nat)
    requires ValidEnvelope(e) && words < 0x1_0000
    ensures HeaderRange(HeaderOf(e, words))
  {
    hide ValidCam, ValidIdentifier;
  }

  /** A whole packet: header, fields, payload, trailer. */
  function Wire(v: View): seq<Octet>
    requires MeasureEnvelope(v.envelope, |v.payload|).Ok?
  {
    var words := MeasureEnvelope(v.envelope, |v.payload|).value / 4;
    HeaderInRange(v.envelope, words);
    Store(JoinHeader(HeaderOf(v.envelope, words))) + FieldBytes(v.envelope, v.payload + WordBytes(v.trailer))
  }

  /** What the source can encode. */
  predicate Encodable(v: View) {
    (v.envelope.trailer <==> v.trailer.Some?) && MeasureEnvelope(v.envelope, |v.payload|).Ok?
  }

  // ----- Decoding -----

  function TakeWord(bs: seq<Octet>): Result<(Word, seq<Octet>)> {
    if |bs| < 4 then Err(ShortInput) else Ok((Load(bs), bs[4..]))
  }

  function TakeStreamId(present: bool, bs: seq<Octet>): Result<(Option<Word>, seq<Octet>)> {
    if !present then Ok((None, bs))
    else match TakeWord(bs) case Ok((w, rest)) => Ok((Some(w), rest)) case Err(code) => Err(code)
  }

  function TakeClass(present: bool, bs: seq<Octet>): Result<(Option<ClassId>, seq<Octet>)> {
    if !present then Ok((None, bs))
    else if |bs| < 8 then Err(ShortInput)
    else
      var a, b := Load(bs), Load(bs[4..]);
      if a / 0x100_0000 % 8 != 0 then Err(InvalidArgument)
      else Ok((Some(ClassId(a % 0x100_0000, b / 0x1_0000, b % 0x1_0000, a / 0x800_0000)), bs[8..]))
  }

  function TakeInteger(tsi: nat, bs: seq<Octet>): Result<(Word, seq<Octet>)> {
    if tsi == 0 then Ok((0, bs)) else TakeWord(bs)
  }

  function TakeFraction(tsf: nat, bs: seq<Octet>): Result<(U64, seq<Octet>)> {
    if tsf == 0 then Ok((0, bs))
    else if |bs| < 8 then Err(ShortInput)
    else Ok((Load(bs) as int * 0x1_0000_0000 + Load(bs[4..]), bs[8..]))
  }

  function TakeIdentifier(cam: Word, enable: nat, uuid: nat, bs: seq<Octet>): Result<(Identifier, seq<Octet>)> {
    if !Flag(cam, enable) then Ok((Identifier(Absent, 0, 0, 0, 0), bs))
    else if !Flag(cam, uuid) then
      if |bs| < 4 then Err(ShortInput) else Ok((Identifier(ShortId, Load(bs), 0, 0, 0), bs[4..]))
    else if |bs| < 16 then Err(ShortInput)
    else Ok((Identifier(Uuid, Load(bs), Load(bs[4..]), Load(bs[8..]), Load(bs[12..])), bs[16..]))
  }

  function TakeCommand(present: bool, bs: seq<Octet>): Result<(Option<Command>, seq<Octet>)> {
    if !present then Ok((None, bs))
    else if |bs| < 8 then Err(ShortInput)
    else
      var cam, mid := Load(bs), Load(bs[4..]);
      match TakeIdentifier(cam, 31, 30, bs[8..])
      case Err(code) => Err(code)
      case Ok((controllee, rest)) =>
        match TakeIdentifier(cam, 29, 28, rest)
        case Err(code) => Err(code)
        case Ok((controller, last)) => Ok((Some(Command(cam, mid, controllee, controller)), last))
  }

  /** The envelope as far as the header tells it. */
  function FromHeader(h: Header): Envelope
    requires HeaderRange(h)
  {
    var d, c := IsData(h.kind), IsCommand(h.kind);
    Envelope(h.kind, h.count, None, None, Timestamp(h.tsi, h.tsf, 0, 0),
             d && h.b26 == 1, !c && h.b25 == 1, d && h.b24 == 1, !d && !c && h.b24 == 1,
             c && h.b26 == 1, c && h.b24 == 1, None)
  }

  /** Fields after the header, in order. */
  function TakeFields(h: Header, bs: seq<Octet>): Result<(Envelope, seq<Octet>)>
    requires HeaderRange(h)
  {
    var e := FromHeader(h);
    match TakeStreamId(HasStreamId(h.kind), bs)
    case Err(code) => Err(code)
    case Ok((sid, b1)) =>
      match TakeClass(h.class_ == 1, b1)
      case Err(code) => Err(code)
      case Ok((class_, b2)) =>
        match TakeInteger(h.tsi, b2)
        case Err(code) => Err(code)
        case Ok((integer, b3)) =>
          match TakeFraction(h.tsf, b3)
          case Err(code) => Err(code)
          case Ok((fractional, b4)) =>
            match TakeCommand(IsCommand(h.kind), b4)
            case Err(code) => Err(code)
            case Ok((command, b5)) =>
              Ok((e.(streamId := sid, classId := class_, timestamp := Timestamp(h.tsi, h.tsf, integer, fractional),
                     command := command), b5))
  }

  function Decode(wire: seq<Octet>): Result<View> {
    if |wire| < 4 then Err(ShortInput)
    else
      var h := SplitHeader(Load(wire));
      if h.kind > 7 || h.size == 0 then Err(InvalidArgument)
      else if 4 * h.size > |wire| then Err(ShortInput)
      else if 4 * h.size != |wire| then Err(InvalidArgument)
      else if !IsData(h.kind) && (if IsCommand(h.kind) then h.b25 else h.b26) == 1 then Err(InvalidArgument)
      else
        match TakeFields(h, wire[4..])
        case Err(code) => Err(code)
        case Ok((e, rest)) =>
          if e.trailer && |rest| < 4 then Err(ShortInput)
          else
            var payload := if e.trailer then rest[..|rest| - 4] else rest;
            match MeasureEnvelope(e, |payload|)
            case Err(code) => Err(code)
            case Ok(_) => Ok(View(e, payload, if e.trailer then Some(Load(rest[|rest| - 4..])) else None))
  }

  /** The envelope without what its header says is absent. */
  function Normal(e: Envelope): Envelope {
    var t := e.timestamp;
    e.(timestamp := t.(integer := if t.tsi == 0 then 0 else t.integer,
                       fractional := if t.tsf == 0 then 0 else t.fractional),
       command := if e.command.None? then None
                  else Some(e.command.value.(controllee := NormalId(e.command.value.controllee),
                                             controller := NormalId(e.command.value.controller))))
  }

  function NormalId(id: Identifier): Identifier {
    match id.kind
    case Absent => Identifier(Absent, 0, 0, 0, 0)
    case ShortId => Identifier(ShortId, id.w0, 0, 0, 0)
    case Uuid => id
  }
}
