/**
 Arrays of CIF records: header, nested records and the shared budget of a traversal
 (include/vita/codec/array_cif.hpp; include/vita/codec/layout.hpp, walk_field_layout).
 Field widths and the checks on field contents come from a schema that is taken as given.
 */
module ArrayCifs {
  import opened Core
  import opened Powers
  import opened NumberTheory
  import opened Envelopes

  datatype FieldId = FieldId(cif: nat, bit: nat)

  const ARRAY := FieldId(1, 11)

  datatype Descriptor = Descriptor(words: nat, attributes: set<nat>)

  datatype Extent = Extent(bytes: nat, units: nat, indexEntries: nat, records: nat)

  /** What is known about fields: their descriptors, the extent of structured ones, and the checks on contents. */
  datatype Schema = Schema(
    descriptor: FieldId -> Option<Descriptor>, structured: FieldId -> bool,
    extent: (FieldId, seq<Octet>) -> Result<Extent>, check: (FieldId, nat, seq<Octet>) -> Result<()>,
    associations: FieldId)

  datatype Limits = Limits(
    maxFields: nat, maxViews: nat, maxWork: nat, maxDepth: nat, maxRecords: nat, associationEntries: nat,
    indexEntries: nat, fieldRecords: nat)

  datatype Usage = Usage(fields: nat, views: nat, work: nat)

  datatype Config = Config(schema: Schema, limits: Limits, timestampsOk: bool)

  const ATTRIBUTES: nat := 13

  predicate IsBase(attribute: nat) { attribute < 11 }

  function Describe(c: Config, id: FieldId): Option<Descriptor> {
    if id == ARRAY then Some(Descriptor(0, {0, 1, 2, 3, 4, 5, 6, 7, 8, 9, 10, 11, 12})) else c.schema.descriptor(id)
  }

  // ----- Header -----

  datatype ArrayHeader = ArrayHeader(bytes: nat, width: nat, records: nat, fields: seq<FieldId>, attributes: seq<nat>)

  /** Selected fields of one indicator word, from bit `bit` down to bit `low`. */
  function FieldsDown(cif: nat, word: Word, bit: int, low: nat): seq<FieldId>
    decreases bit - low + 1
  {
    if bit < low then []
    else (if Flag(word, bit) then [FieldId(cif, bit)] else []) + FieldsDown(cif, word, bit - 1, low)
  }

  function AttributesFrom(word: Word, a: nat): seq<nat>
    requires a <= ATTRIBUTES
    decreases ATTRIBUTES - a
  {
    if a == ATTRIBUTES then [] else (if Flag(word, 31 - a) then [a] else []) + AttributesFrom(word, a + 1)
  }

  /** Words of all records. */
  function Area(width: nat, records: nat): nat { width * records }

  /** Size, record width and record count. */
  function ParseShape(bytes: seq<Octet>): (r: Result<(nat, nat, nat)>)
    ensures r.Ok? ==> r.value.0 == 8 + Area(r.value.1, r.value.2) && 4 * r.value.0 <= |bytes|
                      && (r.value.2 > 0 ==> r.value.1 >= 1)
  {
    hide Area, Bits, Shr, Load;
    if |bytes| < 12 then Err(ShortInput)
    else
      var total, packed := Load(bytes), Load(bytes[4..]);
      var width, records := Bits(packed, 12, 12), Bits(packed, 0, 12);
      if Shr(packed, 24) != 7 || Load(bytes[8..]) != 0 then Err(UnsupportedLayout)
      else if total != 8 + Area(width, records) || (records > 0 && width < 1) then Err(InvalidArgument)
      else if |bytes| < 4 * total then Err(ShortInput)
      else Ok((total, width, records))
  }

  /** Selected fields and attributes. */
  function ParseSelection(c: Config, bytes: seq<Octet>): Result<(seq<FieldId>, seq<nat>)>
    requires |bytes| >= 32
  {
    hide Bits, Flag, Load, FieldsDown, AttributesFrom, Describe;
    var cif0, cif7 := Load(bytes[12..]), Load(bytes[28..]);
    if Flag(cif0, 0) || Bits(cif0, 4, 3) != 0 || Bits(cif7, 0, 19) != 0 then Err(InvalidArgument)
    else if Flag(cif0, 7) != (cif7 != 0) then Err(UnsupportedCapability)
    else
      var fields := FieldsDown(0, cif0, 30, 8) + FieldsDown(1, Load(bytes[16..]), 31, 0) +
        FieldsDown(2, Load(bytes[20..]), 31, 0)
                    + FieldsDown(3, Load(bytes[24..]), 31, 0);
      if exists id :: id in fields && Describe(c, id).None? then Err(UnsupportedLayout)
      else if |fields| > 128 then Err(ResourceLimit)
      else Ok((fields, if cif7 == 0 then [0] else AttributesFrom(cif7, 0)))
  }

  function ParseHeader(c: Config, bytes: seq<Octet>): (r: Result<ArrayHeader>)
    ensures r.Ok? ==> HeaderFits(r.value, bytes)
  {
    hide ParseShape, ParseSelection, Area;
    if !c.timestampsOk then Err(InvalidArgument)
    else
      match ParseShape(bytes)
      case Err(code) => Err(code)
      case Ok((total, width, records)) =>
        match ParseSelection(c, bytes)
        case Err(code) => Err(code)
        case Ok((fields, attributes)) => Ok(ArrayHeader(4 * total, width, records, fields, attributes))
  }

  ghost predicate HeaderFits(h: ArrayHeader, bytes: seq<Octet>) {
    32 <= h.bytes <= |bytes| && h.bytes == 32 + 4 * Area(h.width, h.records) && (h.records > 0 ==> h.width >= 1)
  }

  /** Each field with each of its attributes, in order. */
  function Pairs(fields: seq<FieldId>, attributes: seq<nat>): seq<(FieldId, nat)> {
    if fields == [] then []
    else
      seq(|attributes|, i requires 0 <= i < |attributes| => (fields[0], attributes[i])) +
      Pairs(fields[1..], attributes)
  }

  function Body(h: ArrayHeader, bytes: seq<Octet>, k: nat): (b: seq<Octet>)
    requires HeaderFits(h, bytes) && k < h.records
    ensures |b| == 4 * h.width && |b| >= 4
  {
    hide Area;
    BodyInside(h.width, h.records, k);
    var start := 32 + 4 * Area(h.width, k);
    bytes[start..start + 4 * h.width]
  }

  lemma BodyInside(width: nat, records: nat, k: nat)
    requires k < records
    ensures Area(width, k) + width <= Area(width, records)
  {
    FactorMonotone(width, k + 1, records);
    assert width * (k + 1) == width * k + width;
  }

  // ----- The traversal -----

  /** An array as found: its records, their index words, and their items with place and units of work. */
  datatype Tree = Tree(fields: nat, records: seq<Record>)
  datatype Record = Record(index: Word, items: seq<Item>)
  datatype Item = Item(field: FieldId, attribute: nat, start: nat, size: nat, units: nat, nested: Nested)
  datatype Nested = Plain | Nest(tree: Tree)

  predicate Allows(used: nat, limit: nat, amount: nat) { used <= limit && amount <= limit - used }

  predicate IsNested(id: FieldId, attribute: nat) { id == ARRAY && IsBase(attribute) }

  /** Extent of a field that is not a nested array. */
  function PlainExtent(c: Config, id: FieldId, attribute: nat, rest: seq<Octet>): Result<Extent> {
    if IsBase(attribute) && c.schema.structured(id) then c.schema.extent(id, rest)
    else Ok(Extent(if IsBase(attribute) && Describe(c, id).Some? then 4 * Describe(c, id).value.words else 4, 1, 0, 0))
  }

  /** Limits on one field by itself, once its extent is known. */
  predicate WithinFieldLimits(c: Config, id: FieldId, attribute: nat, e: Extent) {
    && !(id == c.schema.associations && IsBase(attribute) && (e.units < 2 || e.units - 2 > c.limits.associationEntries))
    && e.indexEntries <= c.limits.indexEntries && e.records <= c.limits.fieldRecords
  }

  /** The field may carry all of these attributes. */
  predicate Selectable(c: Config, id: FieldId, attributes: seq<nat>) {
    Describe(c, id).Some? && forall a :: a in attributes ==> a in Describe(c, id).value.attributes
  }

  /** Pays for an item and reports it; `work` is what the record's own walk has spent. */
  function Pay(c: Config, units: nat, work: nat, u: Usage): Result<Usage> {
    if Allows(u.work, c.limits.maxWork, units) && Allows(work, c.limits.maxWork, units)
       && Allows(u.views, c.limits.maxViews, 1)
    then Ok(u.(work := u.work + units, views := u.views + 1))
    else Err(ResourceLimit)
  }

  function PayFor(c: Config, item: Item, e: Extent, work: nat, u: Usage): Result<(Item, Usage)> {
    if !WithinFieldLimits(c, item.field, item.attribute, e) then Err(ResourceLimit)
    else
      match Pay(c, item.units, work, u)
      case Err(code) => Err(code)
      case Ok(v) => Ok((item, v))
  }

  /** One item at position `at`. */
  function TakeItem(c: Config, body: seq<Octet>, id: FieldId, attribute: nat, attributes: seq<nat>, at: nat, depth: nat,
                    work: nat, u: Usage): Result<(Item, Usage)>
    requires depth < 4
    decreases 5 - depth, 0, 0
  {
    if !Selectable(c, id, attributes) then Err(UnsupportedLayout)
    else if at > |body| then Err(ShortInput)
    else if IsNested(id, attribute) then
      match WalkArray(c, body[at..], depth + 1, u)
      case Err(code) => Err(code)
      case Ok((tree, v)) =>
        var size := ParseHeader(c, body[at..]).value.bytes;
        PayFor(c, Item(id, attribute, at, size, 0, Nest(tree)), Extent(size, 0, 0, 0), work, v)
    else TakePlain(c, body, id, attribute, at, work, u)
  }

  /** A field that is not a nested array. */
  function TakePlain(c: Config, body: seq<Octet>, id: FieldId, attribute: nat, at: nat, work: nat, u: Usage):
    Result<(Item, Usage)>
    requires at <= |body|
  {
    match PlainExtent(c, id, attribute, body[at..])
    case Err(code) => Err(code)
    case Ok(e) =>
      if e.bytes > |body| - at then Err(ShortInput)
      else
        match c.schema.check(id, attribute, body[at..at + e.bytes])
        case Err(code) => Err(code)
        case Ok(_) => PayFor(c, Item(id, attribute, at, e.bytes, e.units, Plain), e, work, u)
  }

  /** The items of a record from position `at` on, and where they end. */
  function WalkItems(c: Config, body: seq<Octet>, pairs: seq<(FieldId, nat)>, attributes: seq<nat>, at: nat, depth: nat,
                     work: nat, u: Usage): Result<(seq<Item>, nat, Usage)>
    requires depth < 4
    decreases 5 - depth, 1, |pairs|
  {
    if pairs == [] then Ok(([], at, u))
    else
      match TakeItem(c, body, pairs[0].0, pairs[0].1, attributes, at, depth, work, u)
      case Err(code) => Err(code)
      case Ok((item, v)) =>
        PrependItem(item, WalkItems(c, body, pairs[1..], attributes, at + item.size, depth, work + item.units, v))
  }

  function PrependItem(item: Item, r: Result<(seq<Item>, nat, Usage)>): Result<(seq<Item>, nat, Usage)> {
    match r
    case Err(code) => Err(code)
    case Ok((items, end, u)) => Ok(([item] + items, end, u))
  }

  function TakeRecord(c: Config, h: ArrayHeader, body: seq<Octet>, depth: nat, u: Usage): Result<(Record, Usage)>
    requires depth < 4 && |body| >= 4
    decreases 5 - depth, 2, 0
  {
    if !Allows(u.work, c.limits.maxWork, 1) || !Allows(u.fields, c.limits.maxFields, |h.fields|) then Err(ResourceLimit)
    else
      match WalkItems(c, body, Pairs(h.fields, h.attributes), h.attributes, 4, depth, 0,
                      u.(work := u.work + 1, fields := u.fields + |h.fields|))
      case Err(code) => Err(code)
      case Ok((items, end, v)) => if end != |body| then Err(InvalidArgument) else Ok((Record(Load(body), items), v))
  }

  /** Records from number `k` on. */
  function WalkRecords(c: Config, h: ArrayHeader, bytes: seq<Octet>, depth: nat, k: nat,
                       u: Usage): Result<(seq<Record>, Usage)>
    requires HeaderFits(h, bytes) && depth < 4 && k <= h.records
    decreases 5 - depth, 3, h.records - k
  {
    if k == h.records then Ok(([], u))
    else
      match TakeRecord(c, h, Body(h, bytes, k), depth, u)
      case Err(code) => Err(code)
      case Ok((record, v)) => PrependRecord(record, WalkRecords(c, h, bytes, depth, k + 1, v))
  }

  function PrependRecord(record: Record, r: Result<(seq<Record>, Usage)>): Result<(seq<Record>, Usage)> {
    match r
    case Err(code) => Err(code)
    case Ok((records, u)) => Ok(([record] + records, u))
  }

  /** A whole array at a nesting depth, starting from what has been used so far. */
  function WalkArray(c: Config, bytes: seq<Octet>, depth: nat, u: Usage): Result<(Tree, Usage)>
    decreases if depth <= 4 then 5 - depth else 0, 4, 0
  {
    match ParseHeader(c, bytes)
    case Err(code) => Err(code)
    case Ok(h) =>
      if depth >= 4 || depth >= c.limits.maxDepth || h.records > c.limits.maxRecords then Err(ResourceLimit)
      else if !Allows(u.work, c.limits.maxWork, 1) then Err(ResourceLimit)
      else
        match WalkRecords(c, h, bytes, depth, 0, u.(work := u.work + 1))
        case Err(code) => Err(code)
        case Ok((records, v)) => Ok((Tree(|h.fields|, records), v))
  }
}
