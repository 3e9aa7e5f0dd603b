/**
 Where the parts of an array of CIF records stand: the header words and their bits, the records after them, and
 the fields of a record (include/vita/codec/array_cif.hpp).
 */
module ArrayCifLayout {
  import opened Core
  import opened Powers
  import opened Dyadic
  import opened NumberTheory
  import opened Envelopes
  import opened WireLayout
  import opened ArrayCifs
  import opened ArrayCifLaws

  /** Word `k`, most significant byte first. */
  ghost function WordAt(bytes: seq<Octet>, k: nat): Word
    requires 4 * k + 4 <= |bytes|
  {
    bytes[4 * k] as int * 0x100_0000 + bytes[4 * k + 1] as int * 0x1_0000 + bytes[4 * k + 2] as int * 256 +
      bytes[4 * k + 3]
  }

  lemma LoadIsWord(bytes: seq<Octet>, k: nat)
    requires 4 * k + 4 <= |bytes|
    ensures Load(bytes[4 * k..]) == WordAt(bytes, k)
  {
  }

  // ----- The selected fields -----

  /** Field selected by the indicator words; in the first word bits 0 to 7 and bit 31 are not fields. */
  ghost predicate Selected(bytes: seq<Octet>, id: FieldId)
    requires |bytes| >= 32
  {
    id.cif < 4 && id.bit < 32 && (id.cif == 0 ==> 8 <= id.bit <= 30) && Bit(WordAt(bytes, 3 + id.cif), id.bit)
  }

  /** Fields come word by word, in each word from the highest bit down. */
  predicate Precedes(a: FieldId, b: FieldId) {
    a.cif < b.cif || (a.cif == b.cif && a.bit > b.bit)
  }

  ghost predicate InOrder(fields: seq<FieldId>) {
    forall i, j :: 0 <= i < j < |fields| ==> Precedes(fields[i], fields[j])
  }

  /** The fields a word selects, from bit `bit` down to bit `low`. */
  ghost predicate SelectsDown(cif: nat, word: Word, bit: int, low: nat, fields: seq<FieldId>) {
    && |fields| <= bit - low + 1 && InOrder(fields)
    && forall id :: id in fields <==> id.cif == cif && low <= id.bit <= bit && Bit(word, id.bit)
  }

  lemma {:induction false} FieldsDownMeaning(cif: nat, word: Word, bit: int, low: nat)
    requires bit >= low - 1
    ensures SelectsDown(cif, word, bit, low, FieldsDown(cif, word, bit, low))
    decreases bit - low
  {
    hide Flag, Bit;
    if bit >= low {
      FieldsDownMeaning(cif, word, bit - 1, low);
      FlagIsBit(word, bit);
      SelectsNext(cif, word, bit, low, FieldsDown(cif, word, bit - 1, low));
    }
  }

  lemma SelectsNext(cif: nat, word: Word, bit: nat, low: nat, rest: seq<FieldId>)
    requires bit >= low && SelectsDown(cif, word, bit - 1, low, rest)
    ensures SelectsDown(cif, word, bit, low, (if Bit(word, bit) then [FieldId(cif, bit)] else []) + rest)
  {
    hide Bit;
    forall i | 0 <= i < |rest|
      ensures Precedes(FieldId(cif, bit), rest[i])
    {
      assert rest[i] in rest;
    }
    assert [] + rest == rest;
  }

  lemma OrderedInTurn(a: seq<FieldId>, b: seq<FieldId>)
    requires InOrder(a) && InOrder(b) && forall x, y :: x in a && y in b ==> Precedes(x, y)
    ensures InOrder(a + b)
  {
    hide Precedes;
  }

  /** Attributes `a` on: the first has the highest bit. */
  ghost predicate Shows(word: Word, a: nat, attributes: seq<nat>) {
    && (forall b: nat :: b in attributes <==> a <= b < 13 && Bit(word, 31 - b))
    && forall i, j :: 0 <= i < j < |attributes| ==> attributes[i] < attributes[j]
  }

  ghost predicate Attributed(bytes: seq<Octet>, attributes: seq<nat>)
    requires |bytes| >= 32
  {
    if WordAt(bytes, 7) == 0 then attributes == [0] else Shows(WordAt(bytes, 7), 0, attributes)
  }

  lemma {:induction false} AttributesMeaning(word: Word, a: nat)
    requires a <= 13
    ensures Shows(word, a, AttributesFrom(word, a))
    decreases 13 - a
  {
    hide Flag, Bit, Shows;
    if a < 13 {
      AttributesMeaning(word, a + 1);
      FlagIsBit(word, 31 - a);
      var rest := AttributesFrom(word, a + 1);
      ShowsNext(word, a, rest);
      assert [] + rest == rest;
    } else {
      ShowsNone(word);
    }
  }

  lemma ShowsNone(word: Word)
    ensures Shows(word, 13, [])
  {
  }

  lemma ShowsNext(word: Word, a: nat, rest: seq<nat>)
    requires a < 13 && Shows(word, a + 1, rest)
    ensures Shows(word, a, if Bit(word, 31 - a) then [a] + rest else rest)
  {
    hide Bit;
    forall i | 0 <= i < |rest|
      ensures a < rest[i]
    {
      assert rest[i] in rest;
    }
  }

  // ----- The header -----

  /** What the first three words say of the size. */
  ghost predicate ShapeStands(bytes: seq<Octet>, width: nat, records: nat)
    requires |bytes| >= 12
  {
    && WordAt(bytes, 1) == 7 * 0x100_0000 + width * 0x1000 + records && width < 0x1000 && records < 0x1000
    && WordAt(bytes, 2) == 0
    && WordAt(bytes, 0) == 8 + width * records && (records > 0 ==> width >= 1)
    && 4 * (8 + width * records) <= |bytes|
  }

  lemma ShapeMeaning(bytes: seq<Octet>)
    ensures match ParseShape(bytes)
            case Ok((total, width, records)) =>
              |bytes| >= 32 && ShapeStands(bytes, width, records) && total == 8 + width * records
            case Err(_) => |bytes| < 12 || forall width, records :: !ShapeStands(bytes, width, records)
  {
    hide Load, Shr, Low, Bits, WordAt, Store;
    if |bytes| >= 12 {
      LoadIsWord(bytes, 0);
      LoadIsWord(bytes, 1);
      LoadIsWord(bytes, 2);
      assert bytes[0..] == bytes;
      var packed := Load(bytes[4..]);
      var width, records := Bits(packed, 12, 12), Bits(packed, 0, 12);
      PackedWord(packed);
      AreaIs(width, records);
      hide Area;
      forall w: nat, r: nat | ShapeStands(bytes, w, r)
        ensures w == width && r == records && Shr(packed, 24) == 7
      {
        TwoDigits(Shr(packed, 24), width, records, 7, w, r);
      }
    }
  }

  lemma AreaIs(width: nat, records: nat)
    ensures Area(width, records) == width * records
  {
  }

  lemma TwoDigits(a: nat, x: nat, y: nat, b: nat, v: nat, w: nat)
    requires a * 0x100_0000 + x * 0x1000 + y == b * 0x100_0000 + v * 0x1000 + w
    requires x < 0x1000 && y < 0x1000 && v < 0x1000 && w < 0x1000
    ensures a == b && x == v && y == w
  {
    OneDigit(a * 0x1000 + x, y, b * 0x1000 + v, w);
    OneDigit(a, x, b, v);
  }

  lemma OneDigit(a: nat, x: nat, b: nat, v: nat)
    requires a * 0x1000 + x == b * 0x1000 + v && x < 0x1000 && v < 0x1000
    ensures a == b && x == v
  {
  }

  /** Two fields of twelve bits below a byte. */
  lemma PackedWord(packed: Word)
    ensures var top, width, records := Shr(packed, 24), Bits(packed, 12, 12), Bits(packed, 0, 12);
            && packed == top * 0x100_0000 + width * 0x1000 + records && width < 0x1000 && records < 0x1000
  {
    hide Shl, Shr, Low;
    assert Pow2(12) == 0x1000;
    ShrTwice(packed, 12, 12);
    var upper := Shr(packed, 12);
    ShlTimes(upper, 12);
    ShlTimes(Shr(upper, 12), 12);
    NoShift(packed);
  }

  lemma NoShift(x: nat)
    ensures Shr(x, 0) == x
  {
  }

  /** What the indicator words may not say: reserved bits, or attributes that are not enabled. */
  ghost predicate SelectionStands(c: Config, bytes: seq<Octet>)
    requires |bytes| >= 32
  {
    var cif0, attributes := WordAt(bytes, 3), WordAt(bytes, 7);
    && !Bit(cif0, 0) && !Bit(cif0, 4) && !Bit(cif0, 5) && !Bit(cif0, 6)
    && (forall k :: 0 <= k < 19 ==> !Bit(attributes, k))
    && (Bit(cif0, 7) <==> attributes != 0)
    && forall id :: Selected(bytes, id) ==> Describe(c, id).Some?
  }

  lemma AllFields(bytes: seq<Octet>) returns (fields: seq<FieldId>)
    requires |bytes| >= 32
    ensures fields == FieldsDown(0, Load(bytes[12..]), 30, 8) + FieldsDown(1, Load(bytes[16..]), 31, 0) +
                      FieldsDown(2, Load(bytes[20..]), 31, 0) + FieldsDown(3, Load(bytes[24..]), 31, 0)
    ensures |fields| <= 119 && InOrder(fields) && forall id :: id in fields <==> Selected(bytes, id)
  {
    hide Load, WordAt, Bit, FieldsDown, InOrder;
    LoadIsWord(bytes, 3);
    LoadIsWord(bytes, 4);
    LoadIsWord(bytes, 5);
    LoadIsWord(bytes, 6);
    FieldsDownMeaning(0, Load(bytes[12..]), 30, 8);
    FieldsDownMeaning(1, Load(bytes[16..]), 31, 0);
    FieldsDownMeaning(2, Load(bytes[20..]), 31, 0);
    FieldsDownMeaning(3, Load(bytes[24..]), 31, 0);
    var a, b := FieldsDown(0, Load(bytes[12..]), 30, 8), FieldsDown(1, Load(bytes[16..]), 31, 0);
    var d, e := FieldsDown(2, Load(bytes[20..]), 31, 0), FieldsDown(3, Load(bytes[24..]), 31, 0);
    OrderedInTurn(a, b);
    OrderedInTurn(a + b, d);
    OrderedInTurn(a + b + d, e);
    fields := a + b + d + e;
  }

  lemma SelectionMeaning(c: Config, bytes: seq<Octet>)
    requires |bytes| >= 32
    ensures ParseSelection(c, bytes).Ok? <==> SelectionStands(c, bytes)
    ensures ParseSelection(c, bytes).Ok? ==>
              var (fields, attributes) := ParseSelection(c, bytes).value;
              InOrder(fields) && (forall id :: id in fields <==> Selected(bytes, id)) && Attributed(bytes, attributes)
  {
    hide Load, WordAt, Bit, Flag, Bits, FieldsDown, InOrder, Describe, Selected, AttributesFrom, Shows;
    var cif0, cif7 := Load(bytes[12..]), Load(bytes[28..]);
    LoadIsWord(bytes, 3);
    LoadIsWord(bytes, 7);
    FlagIsBit(cif0, 0);
    FlagIsBit(cif0, 7);
    BitsZero(cif0, 4, 3);
    BitsZero(cif7, 0, 19);
    AttributesMeaning(cif7, 0);
    var fields := AllFields(bytes);
    assert (exists id :: id in fields && Describe(c, id).None?) <==>
           !(forall id :: Selected(bytes, id) ==> Describe(c, id).Some?);
    assert (forall k :: 4 <= k < 7 ==> !Bit(cif0, k)) <==> !Bit(cif0, 4) && !Bit(cif0, 5) && !Bit(cif0, 6);
  }

  /**
   An array's header is accepted exactly when its words say its size, select known fields and leave what is
   reserved clear; it then shows those fields in order, and their attributes.
   */
  lemma HeaderMeaning(c: Config, bytes: seq<Octet>)
    ensures ParseHeader(c, bytes).Ok? <==>
            && c.timestampsOk && |bytes| >= 32 && SelectionStands(c, bytes)
            && exists width, records :: ShapeStands(bytes, width, records)
    ensures ParseHeader(c, bytes).Ok? ==>
              var h := ParseHeader(c, bytes).value;
              && |bytes| >= 32 && ShapeStands(bytes, h.width, h.records)
              && h.bytes == 32 + 4 * (h.width * h.records)
              && InOrder(h.fields) && (forall id :: id in h.fields <==> Selected(bytes, id))
              && Attributed(bytes, h.attributes)
  {
    hide ShapeStands, SelectionStands, Selected, InOrder, Attributed, ParseShape, ParseSelection;
    ShapeMeaning(bytes);
    if |bytes| >= 32 {
      SelectionMeaning(c, bytes);
    }
  }

  // ----- Records and fields -----

  function Bodies(h: ArrayHeader, bytes: seq<Octet>, k: nat): seq<Octet>
    requires HeaderFits(h, bytes) && k <= h.records
    decreases h.records - k
  {
    if k == h.records then [] else Body(h, bytes, k) + Bodies(h, bytes, k + 1)
  }

  lemma {:induction false} BodiesFrom(h: ArrayHeader, bytes: seq<Octet>, k: nat)
    requires HeaderFits(h, bytes) && k <= h.records
    ensures Area(h.width, k) <= Area(h.width, h.records)
    ensures Bodies(h, bytes, k) == bytes[32 + 4 * Area(h.width, k)..h.bytes]
    decreases h.records - k
  {
    hide Area;
    if k < h.records {
      BodyInside(h.width, h.records, k);
      NextArea(h.width, k);
      BodiesFrom(h, bytes, k + 1);
    }
  }

  lemma NextArea(width: nat, k: nat)
    ensures Area(width, k + 1) == Area(width, k) + width
  {
  }

  /** The records follow the header and one another, to the end of the array, each of the width it says. */
  lemma RecordsFollow(h: ArrayHeader, bytes: seq<Octet>)
    requires HeaderFits(h, bytes)
    ensures forall k :: 0 <= k < h.records ==> |Body(h, bytes, k)| == 4 * h.width
    ensures bytes[..h.bytes] == bytes[..32] + Bodies(h, bytes, 0)
  {
    hide Area, Bodies;
    NoArea(h.width);
    BodiesFrom(h, bytes, 0);
  }

  lemma NoArea(width: nat)
    ensures Area(width, 0) == 0
  {
  }

  /** Each field has all its attributes, in order, before the next field. */
  lemma {:induction false} PairsAre(fields: seq<FieldId>, attributes: seq<nat>, i: nat, j: nat)
    requires i < |fields| && j < |attributes|
    ensures |Pairs(fields, attributes)| == |fields| * |attributes|
    ensures i * |attributes| + j < |fields| * |attributes|
    ensures Pairs(fields, attributes)[i * |attributes| + j] == (fields[i], attributes[j])
    decreases |fields|
  {
    var n := |attributes|;
    PairsSize(fields, attributes);
    NextProduct(|fields| - 1, n);
    if i > 0 {
      PairsAre(fields[1..], attributes, i - 1, j);
      NextProduct(i - 1, n);
    }
    FactorMonotone(n, i + 1, |fields|);
    NextProduct(i, n);
  }

  lemma {:induction false} PairsSize(fields: seq<FieldId>, attributes: seq<nat>)
    ensures |Pairs(fields, attributes)| == |fields| * |attributes|
  {
    if fields != [] {
      PairsSize(fields[1..], attributes);
      NextProduct(|fields| - 1, |attributes|);
    }
  }

  lemma NextProduct(i: int, n: int)
    ensures (i + 1) * n == i * n + n == n * (i + 1)
  {
  }

  /**
   A field in an accepted record: attributes 0 to 10 are values, whose extent the schema gives, other attributes
   are one word; associations are counted within their limit, and the contents pass their check.
   */
  lemma FieldRules(c: Config, body: seq<Octet>, item: Item)
    requires item.start + item.size <= |body| && SoundField(c, body, item) && c.schema.descriptor(item.field).Some?
    ensures item.attribute > 10 ==> item.size == 4 && item.units == 1
    ensures item.attribute <= 10 && c.schema.structured(item.field) ==>
              match c.schema.extent(item.field, body[item.start..])
              case Ok(e) =>
                && item.size == e.bytes && item.units == e.units
                && e.indexEntries <= c.limits.indexEntries && e.records <= c.limits.fieldRecords
              case Err(_) => false
    ensures item.attribute <= 10 && !c.schema.structured(item.field) && item.field != FieldId(1, 11) ==>
              item.size == 4 * c.schema.descriptor(item.field).value.words && item.units == 1
    ensures item.attribute <= 10 && item.field == c.schema.associations ==>
              2 <= item.units <= 2 + c.limits.associationEntries
    ensures c.schema.check(item.field, item.attribute, body[item.start..item.start + item.size]).Ok?
  {
  }

  // ----- What a flat array costs -----

  function Units(items: seq<Item>): nat {
    if items == [] then 0 else items[0].units + Units(items[1..])
  }

  predicate AllPlain(items: seq<Item>) {
    forall i :: 0 <= i < |items| ==> items[i].nested.Plain?
  }

  lemma {:induction false} PlainItemsCost(items: seq<Item>)
    requires AllPlain(items)
    ensures ItemsCost(items) == Usage(0, |items|, Units(items))
  {
    if items != [] {
      PlainItemsCost(items[1..]);
    }
  }

  function AllItems(records: seq<Record>): seq<Item> {
    if records == [] then [] else records[0].items + AllItems(records[1..])
  }

  lemma {:induction false} UnitsOfBoth(a: seq<Item>, b: seq<Item>)
    ensures Units(a + b) == Units(a) + Units(b)
  {
    if a == [] {
      assert a + b == b;
    } else {
      assert (a + b)[1..] == a[1..] + b;
      UnitsOfBoth(a[1..], b);
    }
  }

  lemma PlainParts(a: seq<Item>, b: seq<Item>)
    requires AllPlain(a + b)
    ensures AllPlain(a) && AllPlain(b)
  {
    assert forall i :: 0 <= i < |a| ==> a[i] == (a + b)[i];
    assert forall i :: 0 <= i < |b| ==> b[i] == (a + b)[|a| + i];
  }

  lemma {:induction false} PlainRecordsCost(fields: nat, records: seq<Record>)
    requires AllPlain(AllItems(records))
    ensures RecordsCost(fields, records) ==
            Usage(|records| * fields, |AllItems(records)|, |records| + Units(AllItems(records)))
  {
    hide Units, ItemsCost, AllPlain;
    if records != [] {
      var first, rest := records[0].items, AllItems(records[1..]);
      PlainParts(first, rest);
      PlainItemsCost(first);
      PlainRecordsCost(fields, records[1..]);
      UnitsOfBoth(first, rest);
      NextProduct(|records| - 1, fields);
    } else {
      NoUnits();
    }
  }

  lemma NoUnits()
    ensures Units([]) == 0
  {
  }

  /**
   An array with nothing nested costs its fields once for each record, a view for each item, and in work one for
   itself, one for each record and the units of its items.
   */
  lemma FlatCost(t: Tree)
    requires AllPlain(AllItems(t.records))
    ensures Cost(t) == Usage(|t.records| * t.fields, |AllItems(t.records)|,
                             1 + |t.records| + Units(AllItems(t.records)))
  {
    PlainRecordsCost(t.fields, t.records);
  }
}
