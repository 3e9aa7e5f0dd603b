/**
 Packed sample items: their places, packing into a buffer and reading back
 (include/vita/codec/general_samples.hpp).
 */
module SamplePacking {
  import opened Core
  import opened Powers
  import opened NumberTheory
  import opened SampleBits

  datatype PackingMode = Link | Processing
  datatype SampleKind = Real | Cartesian | Polar
  datatype RepeatMode = NoRepeat | PerComponent | PerChannel

  datatype PackingSpec = PackingSpec(
    itemBits: nat, packingBits: nat, channelTagBits: nat, eventTagBits: nat,
    packing: PackingMode, kind: SampleKind, repeating: RepeatMode, vectorSize: nat, repeatCount: nat)

  datatype Limits = Limits(maxItems: nat, maxBytes: nat)

  datatype Shape = Shape(structures: nat, itemsPerStructure: nat, items: nat, bytes: nat)

  datatype Item = Item(data: U64, channelTag: U64, eventTag: U64)

  function Components(kind: SampleKind): (n: nat)
    ensures 1 <= n <= 2
  {
    if kind == Real then 1 else 2
  }

  function Validate(s: PackingSpec): Result<()> {
    if s.itemBits == 0 || s.itemBits > 64 || s.packingBits == 0 || s.packingBits > 64 || s.channelTagBits > 15
       || s.eventTagBits > 7
       || s.itemBits + s.channelTagBits + s.eventTagBits > s.packingBits || s.vectorSize == 0 || s.vectorSize > 65535
       || s.repeatCount == 0 || s.repeatCount > 65536 then Err(InvalidArgument)
    else if (s.repeating == NoRepeat && s.repeatCount != 1)
            || (s.repeating == PerComponent && s.kind == Real) then Err(InvalidArgument)
    else if s.packing == Processing && s.packingBits > 32 then Err(UnsupportedLayout)
    else Ok(())
  }

  predicate ValidSpec(s: PackingSpec) { Validate(s).Ok? }

  /** Items per 32-bit word in processing-efficient packing. */
  function PerWord(s: PackingSpec): (per: nat)
    requires ValidSpec(s)
    ensures s.packing == Processing ==> per > 0 && per * s.packingBits <= 32
  {
    32 / s.packingBits
  }

  /** First bit of an item's place. */
  function Offset(s: PackingSpec, index: nat): nat
    requires ValidSpec(s)
  {
    if s.packing == Link then index * s.packingBits else WordOffset(s.packingBits, PerWord(s), index)
  }

  function WordOffset(width: nat, per: nat, index: nat): nat
    requires per > 0
  {
    (index / per) * 32 + (index % per) * width
  }

  /** Product in 64 bits. */
  function Multiply(a: nat, b: nat): (r: Result<nat>)
    ensures r == if a * b <= U64_MAX then Ok(a * b) else Err(Overflow)
  {
    if a != 0 && b > U64_MAX / a then
      ProductTooBig(a, b);
      Err(Overflow)
    else
      ProductFits(a, b);
      Ok(a * b)
  }

  lemma ProductTooBig(a: nat, b: nat)
    requires a != 0 && b > U64_MAX / a
    ensures a * b > U64_MAX
  {
    FactorMonotone(a, U64_MAX / a + 1, b);
    assert a * (U64_MAX / a + 1) == a * (U64_MAX / a) + a;
  }

  lemma ProductFits(a: nat, b: nat)
    requires a == 0 || b <= U64_MAX / a
    ensures a * b <= U64_MAX
  {
    if a != 0 {
      FactorMonotone(a, b, U64_MAX / a);
    }
  }

  function Ceiling(n: nat, d: nat): nat
    requires d > 0
  {
    n / d + if n % d != 0 then 1 else 0
  }

  function Measure(s: PackingSpec, structures: nat, limits: Limits): Result<Shape> {
    if Validate(s).Err? then Err(Validate(s).error)
    else
      var samples := Multiply(s.vectorSize, s.repeatCount);
      if samples.Err? then Err(samples.error)
      else
        var group := Multiply(samples.value, Components(s.kind));
        if group.Err? then Err(group.error)
        else
          var items := Multiply(structures, group.value);
          if items.Err? then Err(items.error)
          else if items.value > limits.maxItems then Err(ResourceLimit)
          else
            var words := if s.packing == Link then
                           (match Multiply(items.value, s.packingBits)
                            case Ok(bits) => Ok(Ceiling(bits, 32))
                            case Err(code) => Err(code))
                         else Ok(Ceiling(items.value, PerWord(s)));
            if words.Err? then Err(words.error)
            else
              var bytes := Multiply(words.value, 4);
              if bytes.Err? then Err(bytes.error)
              else if Multiply(bytes.value, 8).Err? then Err(Overflow)
              else if bytes.value > limits.maxBytes then Err(ResourceLimit)
              else Ok(Shape(structures, group.value, items.value, bytes.value))
  }

  // ----- Places -----

  lemma CeilingCovers(n: nat, d: nat)
    requires d > 0
    ensures n <= d * Ceiling(n, d) < n + d
  {
    var c := Ceiling(n, d);
    assert n == d * (n / d) + n % d;
    if n % d != 0 {
      assert d * c == d * (n / d) + d;
    }
  }

  lemma WordsCover(s: PackingSpec, items: nat, words: nat, i: nat)
    requires ValidSpec(s) && s.packing == Processing && i < items && words == Ceiling(items, PerWord(s))
    ensures i / PerWord(s) < words
  {
    var per := PerWord(s);
    CeilingCovers(items, per);
    assert i == per * (i / per) + i % per;
    FactorOrder(per, i / per, words);
  }

  lemma LinkApart(width: nat, i: nat, j: nat)
    requires i < j
    ensures i * width + width <= j * width
  {
    FactorMonotone(width, i + 1, j);
    assert width * (i + 1) == i * width + width;
  }

  lemma WordEnd(width: nat, per: nat, i: nat)
    requires per > 0 && per * width <= 32
    ensures WordOffset(width, per, i) + width <= 32 * (i / per) + 32
  {
    LinkApart(width, i % per, per);
  }

  lemma WordsInOrder(per: nat, a: nat, b: nat, c: nat, d: nat)
    requires d < per && per * a + b < per * c + d
    ensures a <= c
  {
    assert per * (c + 1) == per * c + per;
    FactorOrder(per, a, c + 1);
  }

  lemma WordApart(width: nat, per: nat, i: nat, j: nat)
    requires per > 0 && per * width <= 32 && i < j
    ensures WordOffset(width, per, i) + width <= WordOffset(width, per, j)
  {
    PartsApart(width, per, i / per, i % per, j / per, j % per);
  }

  lemma PartsApart(width: nat, per: nat, a: nat, b: nat, c: nat, d: nat)
    requires b < per && d < per && per * a + b < per * c + d && per * width <= 32
    ensures a * 32 + b * width + width <= c * 32 + d * width
  {
    WordsInOrder(per, a, b, c, d);
    LinkApart(width, b, per);
    if a == c {
      LinkApart(width, b, d);
    }
  }

  /** Every item lies inside the measured buffer, and its bit positions fit 64 bits. */
  lemma PlaceInside(s: PackingSpec, structures: nat, limits: Limits, i: nat)
    requires Measure(s, structures, limits).Ok? && i < Measure(s, structures, limits).value.items
    ensures Offset(s, i) + s.packingBits <= 8 * Measure(s, structures, limits).value.bytes <= U64_MAX
  {
    var shape := Measure(s, structures, limits).value;
    MeasuredBytes(s, structures, limits);
    hide Measure, PerWord, WordOffset, Ceiling;
    if s.packing == Link {
      CeilingCovers(shape.items * s.packingBits, 32);
      if i + 1 < shape.items {
        LinkApart(s.packingBits, i + 1, shape.items);
      }
      LinkApart(s.packingBits, i, shape.items);
    } else {
      WordsCover(s, shape.items, Ceiling(shape.items, PerWord(s)), i);
      WordEnd(s.packingBits, PerWord(s), i);
    }
  }

  lemma MeasuredBytes(s: PackingSpec, structures: nat, limits: Limits)
    requires Measure(s, structures, limits).Ok?
    ensures var shape := Measure(s, structures, limits).value;
            && ValidSpec(s) && 8 * shape.bytes <= U64_MAX
            && shape.bytes == 4 * if s.packing == Link then Ceiling(shape.items * s.packingBits, 32)
                                  else Ceiling(shape.items, PerWord(s))
  {
    hide PerWord, Ceiling;
  }

  /** Places do not overlap. */
  lemma PlacesApart(s: PackingSpec, i: nat, j: nat)
    requires ValidSpec(s) && i < j
    ensures Offset(s, i) + s.packingBits <= Offset(s, j)
  {
    hide PerWord, WordOffset;
    if s.packing == Link {
      LinkApart(s.packingBits, i, j);
    } else {
      WordApart(s.packingBits, PerWord(s), i, j);
    }
  }

  // ----- Items in a buffer -----

  /** Bits of an item within its place: data first, tags at the end, nothing between. */
  predicate ItemBit(s: PackingSpec, item: Item, q: nat) {
    || (q < s.itemBits && ValueBit(item.data, s.itemBits - 1 - q))
    || (q < s.packingBits && q >= s.packingBits - s.channelTagBits && ValueBit(item.channelTag, s.packingBits - 1 - q))
    || (q < s.packingBits - s.channelTagBits && q >= s.packingBits - s.channelTagBits - s.eventTagBits
        && ValueBit(item.eventTag, s.packingBits - s.channelTagBits - 1 - q))
  }

  predicate ItemFits(s: PackingSpec, item: Item) {
    item.data < Pow2(s.itemBits) && item.channelTag < Pow2(s.channelTagBits) && item.eventTag < Pow2(s.eventTagBits)
  }

  predicate InPlace(s: PackingSpec, j: nat, p: nat)
    requires ValidSpec(s)
  {
    Offset(s, j) <= p < Offset(s, j) + s.packingBits
  }

  /** Bits that the first `n` items set. */
  ghost predicate Marked(s: PackingSpec, items: seq<Item>, n: nat, p: nat)
    requires ValidSpec(s) && n <= |items|
  {
    exists j: nat :: j < n && InPlace(s, j, p) && ItemBit(s, items[j], p - Offset(s, j))
  }

  /** The item at a place. */
  function ItemAt(s: PackingSpec, bytes: seq<Byte>, index: nat): (item: Item)
    requires ValidSpec(s) && Offset(s, index) + s.packingBits <= 8 * |bytes|
    ensures ItemFits(s, item)
  {
    hide Offset;
    var bit := Offset(s, index);
    Pow2Word(s.itemBits);
    Pow2Word(s.channelTagBits);
    Pow2Word(s.eventTagBits);
    Item(ReadBits(bytes, bit, s.itemBits),
         ReadBits(bytes, bit + s.packingBits - s.channelTagBits, s.channelTagBits),
         ReadBits(bytes, bit + s.packingBits - s.channelTagBits - s.eventTagBits, s.eventTagBits))
  }

  /** A place shows an item when its fields do. */
  ghost predicate PlaceShows(s: PackingSpec, bytes: seq<Byte>, index: nat, item: Item)
    requires ValidSpec(s) && Offset(s, index) + s.packingBits <= 8 * |bytes|
  {
    var bit := Offset(s, index);
    && Shows(bytes, bit, s.itemBits, item.data)
    && Shows(bytes, bit + s.packingBits - s.channelTagBits, s.channelTagBits, item.channelTag)
    && Shows(bytes, bit + s.packingBits - s.channelTagBits - s.eventTagBits, s.eventTagBits, item.eventTag)
  }

  lemma ItemAtShows(s: PackingSpec, bytes: seq<Byte>, index: nat, item: Item)
    requires ValidSpec(s) && Offset(s, index) + s.packingBits <= 8 * |bytes| && ItemFits(s, item)
    ensures ItemAt(s, bytes, index) == item <==> PlaceShows(s, bytes, index, item)
  {
    hide Offset, Shows, ReadBits;
    var bit := Offset(s, index);
    ReadShows(bytes, bit, s.itemBits, item.data);
    ReadShows(bytes, bit + s.packingBits - s.channelTagBits, s.channelTagBits, item.channelTag);
    ReadShows(bytes, bit + s.packingBits - s.channelTagBits - s.eventTagBits, s.eventTagBits, item.eventTag);
  }

  /** Reading back what was marked: no other item's bits are in the way. */
  lemma MarkedReads(s: PackingSpec, bytes: seq<Byte>, items: seq<Item>, j: nat)
    requires ValidSpec(s) && j < |items| && Offset(s, j) + s.packingBits <= 8 * |bytes| && ItemFits(s, items[j])
    requires forall p: nat :: p < 8 * |bytes| ==> (Bit(bytes, p) <==> Marked(s, items, |items|, p))
    ensures ItemAt(s, bytes, j) == items[j]
  {
    hide Offset, ItemAt, Bit, ValueBit;
    forall p: nat | InPlace(s, j, p)
      ensures Bit(bytes, p) <==> ItemBit(s, items[j], p - Offset(s, j))
    {
      OnlyPlace(s, items, j, p);
    }
    ItemAtShows(s, bytes, j, items[j]);
  }

  lemma OnlyPlace(s: PackingSpec, items: seq<Item>, j: nat, p: nat)
    requires ValidSpec(s) && j < |items| && InPlace(s, j, p)
    ensures Marked(s, items, |items|, p) <==> ItemBit(s, items[j], p - Offset(s, j))
  {
    hide Offset, ItemBit;
    forall k: nat | k < |items| && InPlace(s, k, p)
      ensures k == j
    {
      if k < j {
        PlacesApart(s, k, j);
      } else if j < k {
        PlacesApart(s, j, k);
      }
    }
  }

  // ----- Packing -----

  /** Only the bits of one item's place may have been set, by that item. */
  ghost predicate Placed(s: PackingSpec, was: seq<Byte>, now: seq<Byte>, offset: nat, item: Item) {
    && |now| == |was|
    && forall p: nat :: p < 8 * |now| ==>
         (Bit(now, p) <==> Bit(was, p) || (offset <= p < offset + s.packingBits && ItemBit(s, item, p - offset)))
  }

  method WriteItem(s: PackingSpec, a: array<Byte>, offset: nat, item: Item)
    requires ValidSpec(s) && offset + s.packingBits <= 8 * a.Length
    modifies a
    ensures Placed(s, old(a[..]), a[..], offset, item)
  {
    hide Bit, ValueBit, Wrote;
    ghost var was := a[..];
    WriteBits(a, offset, s.itemBits, item.data);
    ghost var one := a[..];
    WriteBits(a, offset + s.packingBits - s.channelTagBits, s.channelTagBits, item.channelTag);
    ghost var two := a[..];
    WriteBits(a, offset + s.packingBits - s.channelTagBits - s.eventTagBits, s.eventTagBits, item.eventTag);
    FieldsPlace(s, was, one, two, a[..], offset, item);
  }

  lemma FieldsPlace(s: PackingSpec, was: seq<Byte>, one: seq<Byte>, two: seq<Byte>, now: seq<Byte>, offset: nat,
                    item: Item)
    requires ValidSpec(s) && offset + s.packingBits <= 8 * |was|
    requires Wrote(was, one, offset, s.itemBits, item.data, s.itemBits)
    requires Wrote(one, two, offset + s.packingBits - s.channelTagBits, s.channelTagBits, item.channelTag,
                   s.channelTagBits)
    requires Wrote(two, now, offset + s.packingBits - s.channelTagBits - s.eventTagBits, s.eventTagBits, item.eventTag,
                   s.eventTagBits)
    ensures Placed(s, was, now, offset, item)
  {
    hide Bit, ValueBit;
    forall p: nat | p < 8 * |now|
      ensures Bit(now, p) <==> Bit(was, p) || (offset <= p < offset + s.packingBits && ItemBit(s, item, p - offset))
    {
      assert Bit(two, p) || !Bit(two, p);
      assert Bit(one, p) || !Bit(one, p);
    }
  }

  /** Marks and nothing else within the wire; nothing changed behind it. */
  ghost predicate Progressed(s: PackingSpec, was: seq<Byte>, now: seq<Byte>, wire: nat, items: seq<Item>, n: nat)
    requires ValidSpec(s) && n <= |items|
  {
    && |now| == |was| && wire <= |now|
    && forall p: nat :: p < 8 * |now| ==>
      (Bit(now, p) <==> if p < 8 * wire then Marked(s, items, n, p) else Bit(was, p))
  }

  lemma ProgressNext(s: PackingSpec, was: seq<Byte>, now: seq<Byte>, next: seq<Byte>, wire: nat, items: seq<Item>,
                     n: nat)
    requires ValidSpec(s) && n < |items| && Progressed(s, was, now, wire, items, n)
    requires Offset(s, n) + s.packingBits <= 8 * wire && Placed(s, now, next, Offset(s, n), items[n])
    ensures Progressed(s, was, next, wire, items, n + 1)
  {
    hide Bit, Offset, ItemBit;
    forall p: nat | p < 8 * |next|
      ensures Bit(next, p) <==> if p < 8 * wire then Marked(s, items, n + 1, p) else Bit(was, p)
    {
      MarkedNext(s, items, n, p);
      assert Bit(now, p) || !Bit(now, p);
    }
  }

  lemma MarkedNext(s: PackingSpec, items: seq<Item>, n: nat, p: nat)
    requires ValidSpec(s) && n < |items|
    ensures Marked(s, items, n + 1, p) <==>
              Marked(s, items, n, p) || (InPlace(s, n, p) && ItemBit(s, items[n], p - Offset(s, n)))
  {
    hide Offset, ItemBit;
    if Marked(s, items, n, p) {
      var j: nat :| j < n && InPlace(s, j, p) && ItemBit(s, items[j], p - Offset(s, j));
      assert j < n + 1;
    }
  }

  /** Bits in data or tag fields of the first `n` places. */
  predicate InField(s: PackingSpec, j: nat, p: nat)
    requires ValidSpec(s)
  {
    InPlace(s, j, p) && (p - Offset(s, j) < s.itemBits
                         || p - Offset(s, j) >= s.packingBits - s.channelTagBits - s.eventTagBits)
  }

  /** Padding is zero. */
  ghost predicate Clean(s: PackingSpec, bytes: seq<Byte>, n: nat)
    requires ValidSpec(s)
  {
    forall p: nat :: p < 8 * |bytes| && Bit(bytes, p) ==> exists j: nat :: j < n && InField(s, j, p)
  }

  /** What a finished buffer shows. */
  ghost predicate Holds(s: PackingSpec, bytes: seq<Byte>, items: seq<Item>)
    requires ValidSpec(s)
  {
    && (forall j: nat :: j < |items| ==> Offset(s, j) + s.packingBits <= 8 * |bytes| && ItemAt(s, bytes, j) == items[j])
    && Clean(s, bytes, |items|)
  }

  lemma PrefixBit(s: seq<Byte>, n: nat, p: nat)
    requires n <= |s| && p < 8 * n
    ensures Bit(s[..n], p) <==> Bit(s, p)
  {
    hide BitOf;
  }

  lemma Finished(s: PackingSpec, was: seq<Byte>, now: seq<Byte>, wire: nat, items: seq<Item>)
    requires ValidSpec(s) && Progressed(s, was, now, wire, items, |items|)
    requires forall j: nat :: j < |items| ==> ItemFits(s, items[j]) && Offset(s, j) + s.packingBits <= 8 * wire
    ensures Holds(s, now[..wire], items) && now[wire..] == was[wire..]
  {
    hide Bit, Offset, ItemAt, ItemBit, ItemFits, Clean;
    var bytes := now[..wire];
    forall p: nat | p < 8 * wire
      ensures Bit(bytes, p) <==> Marked(s, items, |items|, p)
    {
      PrefixBit(now, wire, p);
    }
    forall j: nat | j < |items|
      ensures ItemAt(s, bytes, j) == items[j]
    {
      MarkedReads(s, bytes, items, j);
    }
    MarkedIsClean(s, bytes, items);
    SuffixSame(now, was, wire);
  }

  lemma MarkedIsClean(s: PackingSpec, bytes: seq<Byte>, items: seq<Item>)
    requires ValidSpec(s) && forall p: nat :: p < 8 * |bytes| ==> (Bit(bytes, p) <==> Marked(s, items, |items|, p))
    ensures Clean(s, bytes, |items|)
  {
    hide Bit, Offset, ValueBit;
    forall p: nat | p < 8 * |bytes| && Bit(bytes, p)
      ensures exists j: nat :: j < |items| && InField(s, j, p)
    {
      var j: nat :| j < |items| && InPlace(s, j, p) && ItemBit(s, items[j], p - Offset(s, j));
      assert InField(s, j, p);
    }
  }

  lemma SuffixSame(s: seq<Byte>, t: seq<Byte>, n: nat)
    requires |s| == |t| && n <= |s| && forall p: nat :: 8 * n <= p < 8 * |s| ==> (Bit(s, p) <==> Bit(t, p))
    ensures s[n..] == t[n..]
  {
    hide BitOf;
    forall p: nat | p < 8 * |s[n..]|
      ensures Bit(s[n..], p) <==> Bit(t[n..], p)
    {
      assert (8 * n + p) / 8 == n + p / 8 && (8 * n + p) % 8 == p % 8;
      assert Bit(s, 8 * n + p) <==> Bit(t, 8 * n + p);
    }
    SameBuffer(s[n..], t[n..]);
  }

  /**
   Packs items into the front of a buffer. Success holds exactly the items with zero padding and leaves the
   rest of the buffer alone; failure leaves all of it alone.
   */
  method Pack(s: PackingSpec, structures: nat, items: seq<Item>, a: array<Byte>, limits: Limits)
    returns (r: Result<nat>)
    modifies a
    ensures Measure(s, structures, limits).Err? ==> r == Err(Measure(s, structures, limits).error)
    ensures Measure(s, structures, limits).Ok? ==>
              var shape := Measure(s, structures, limits).value;
              r == if |items| != shape.items then Err(InvalidArgument)
                   else if a.Length < shape.bytes then Err(ShortOutput)
                   else if exists j :: 0 <= j < |items| && !ItemFits(s, items[j]) then Err(InvalidArgument)
                   else Ok(shape.bytes)
    ensures r.Err? ==> a[..] == old(a[..])
    ensures r.Ok? ==> r.value <= a.Length && ValidSpec(s) && Holds(s, a[..r.value], items)
                      && a[r.value..] == old(a[r.value..])
  {
    hide Measure, ItemFits, Offset, Holds, Bit, ItemBit, Marked, Progressed;
    var measured := Measure(s, structures, limits);
    if measured.Err? {
      return Err(measured.error);
    }
    var shape := measured.value;
    if |items| != shape.items {
      return Err(InvalidArgument);
    }
    if a.Length < shape.bytes {
      return Err(ShortOutput);
    }
    var ok := AllFit(s, items);
    if !ok {
      return Err(InvalidArgument);
    }
    MeasuredBytes(s, structures, limits);
    ghost var was := a[..];
    Erase(a, shape.bytes);
    NothingMarked(s, was, a[..], shape.bytes, items);
    for i := 0 to |items|
      invariant Progressed(s, was, a[..], shape.bytes, items, i)
    {
      ghost var now := a[..];
      PlaceInside(s, structures, limits, i);
      WriteItem(s, a, Offset(s, i), items[i]);
      ProgressNext(s, was, now, a[..], shape.bytes, items, i);
    }
    forall j: nat | j < |items|
      ensures Offset(s, j) + s.packingBits <= 8 * shape.bytes
    {
      PlaceInside(s, structures, limits, j);
    }
    Finished(s, was, a[..], shape.bytes, items);
    return Ok(shape.bytes);
  }

  method AllFit(s: PackingSpec, items: seq<Item>) returns (ok: bool)
    ensures ok <==> forall j :: 0 <= j < |items| ==> ItemFits(s, items[j])
  {
    for i := 0 to |items|
      invariant forall j :: 0 <= j < i ==> ItemFits(s, items[j])
    {
      if !ItemFits(s, items[i]) {
        return false;
      }
    }
    return true;
  }

  method Erase(a: array<Byte>, wire: nat)
    requires wire <= a.Length
    modifies a
    ensures forall i :: 0 <= i < wire ==> a[i] == 0
    ensures a[wire..] == old(a[wire..])
  {
    for i := 0 to wire
      invariant forall j :: 0 <= j < i ==> a[j] == 0
      invariant a[wire..] == old(a[wire..])
    {
      a[i] := 0;
    }
  }

  lemma NothingMarked(s: PackingSpec, was: seq<Byte>, now: seq<Byte>, wire: nat, items: seq<Item>)
    requires ValidSpec(s) && |now| == |was| && wire <= |now|
    requires forall i :: 0 <= i < wire ==> now[i] == 0
    requires now[wire..] == was[wire..]
    ensures Progressed(s, was, now, wire, items, 0)
  {
    hide BitOf, Offset, ItemBit;
    forall p: nat | p < 8 * |now|
      ensures Bit(now, p) <==> if p < 8 * wire then false else Bit(was, p)
    {
      if p < 8 * wire {
        NoBits(p % 8);
      } else {
        assert now[p / 8] == now[wire..][p / 8 - wire];
        assert was[p / 8] == was[wire..][p / 8 - wire];
      }
    }
  }

  // ----- The other direction -----

  /** A clean buffer is determined by its items: packing what was read reproduces it. */
  lemma PackedIsUnique(s: PackingSpec, v: seq<Byte>, w: seq<Byte>, items: seq<Item>)
    requires ValidSpec(s) && |v| == |w| && Holds(s, v, items) && Holds(s, w, items)
    ensures v == w
  {
    hide Bit, Offset, ItemAt;
    forall p: nat | p < 8 * |v|
      ensures Bit(v, p) <==> Bit(w, p)
    {
      if Bit(v, p) {
        FieldBitShared(s, v, w, items, p);
      }
      if Bit(w, p) {
        FieldBitShared(s, w, v, items, p);
      }
    }
    SameBuffer(v, w);
  }

  lemma FieldBitShared(s: PackingSpec, v: seq<Byte>, w: seq<Byte>, items: seq<Item>, p: nat)
    requires ValidSpec(s) && |v| == |w| && Holds(s, v, items) && Holds(s, w, items) && p < 8 * |v| && Bit(v, p)
    ensures Bit(w, p)
  {
    hide Bit, Offset, ItemAt, ValueBit;
    var j: nat :| j < |items| && InField(s, j, p);
    ItemAtShows(s, v, j, items[j]);
    ItemAtShows(s, w, j, items[j]);
  }
}
