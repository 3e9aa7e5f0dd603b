/**
 How packed samples lie in a buffer: where places begin, how many words a shape takes, and in which order items follow
 (include/vita/codec/general_samples.hpp; section 6.1.1 of ANSI/VITA 49.2).
 */
module SampleLayout {
  import opened Core
  import opened NumberTheory
  import opened SampleBits
  import opened SamplePacking
  import opened SampleCoordinates

  // ----- Places -----

  /**
   Link-efficient places follow each other directly. Processing-efficient places never straddle a 32-bit word: the next
   one follows directly while it fits the word and begins the next word otherwise.
   */
  lemma PlacesFollow(s: PackingSpec, i: nat)
    requires ValidSpec(s)
    ensures Offset(s, 0) == 0
    ensures Offset(s, i + 1) ==
            if s.packing == Link || Offset(s, i) % 32 + 2 * s.packingBits <= 32 then Offset(s, i) + s.packingBits
            else 32 * (Offset(s, i) / 32 + 1)
  {
    hide Validate, PerWord, WordOffset;
    if s.packing == Link {
      NextDirectly(s.packingBits, i);
    } else {
      WholeFields(s);
      WordPlaces(s.packingBits, PerWord(s), i);
    }
  }

  lemma NextDirectly(width: nat, i: nat)
    ensures 0 * width == 0 && (i + 1) * width == i * width + width
  {
  }

  /** A word holds as many whole fields as it can. */
  lemma WholeFields(s: PackingSpec)
    requires ValidSpec(s) && s.packing == Processing
    ensures PerWord(s) * s.packingBits <= 32 < PerWord(s) * s.packingBits + s.packingBits
  {
    assert 32 == s.packingBits * (32 / s.packingBits) + 32 % s.packingBits;
  }

  lemma WordPlaces(width: nat, per: nat, i: nat)
    requires per > 0 && per * width <= 32 < per * width + width
    ensures WordOffset(width, per, 0) == 0
    ensures WordOffset(width, per, i) % 32 == (i % per) * width && WordOffset(width, per, i) / 32 == i / per
    ensures WordOffset(width, per, i + 1) ==
            if (i % per) * width + 2 * width <= 32 then WordOffset(width, per, i) + width else 32 * (i / per + 1)
  {
    var q, k := i / per, i % per;
    assert i == per * q + k;
    assert WordOffset(width, per, 0) == 0 by {
      DivisionUnique(0, per, 0, 0);
    }
    InWord(width, per, k);
    DivisionUnique(WordOffset(width, per, i), 32, q, k * width);
    if k + 1 < per {
      DivisionUnique(i + 1, per, q, k + 1);
      NextFits(width, per, k);
      NextPlace(q, k, width);
    } else {
      NextQuotient(per, q);
      DivisionUnique(i + 1, per, q + 1, 0);
      LastField(width, per, k);
    }
  }

  lemma NextPlace(q: nat, k: nat, width: nat)
    ensures q * 32 + (k + 1) * width == q * 32 + k * width + width
  {
  }

  lemma NextQuotient(per: nat, q: nat)
    ensures per * (q + 1) == per * q + per
  {
  }

  lemma LastField(width: nat, per: nat, k: nat)
    requires k + 1 == per && per * width <= 32 < per * width + width
    ensures k * width + 2 * width > 32
  {
    assert k * width + width == per * width;
  }

  lemma InWord(width: nat, per: nat, k: nat)
    requires k < per && per * width <= 32 < per * width + width
    ensures 0 <= k * width < 32
  {
    FactorMonotone(width, k + 1, per);
    assert width * (k + 1) == k * width + width;
    assert width > 0;
  }

  lemma NextFits(width: nat, per: nat, k: nat)
    requires k + 1 < per && per * width <= 32
    ensures k * width + 2 * width <= 32
  {
    FactorMonotone(width, k + 2, per);
    assert width * (k + 2) == k * width + 2 * width;
  }

  /** Within a place the data comes first, then padding, the event tag, and the channel tag at the end. */
  lemma ItemFields(s: PackingSpec, bytes: seq<Byte>, i: nat)
    requires ValidSpec(s) && Offset(s, i) + s.packingBits <= 8 * |bytes|
    ensures var end := Offset(s, i) + s.packingBits;
            && ItemAt(s, bytes, i).data == ReadBits(bytes, Offset(s, i), s.itemBits)
            && ItemAt(s, bytes, i).eventTag ==
               ReadBits(bytes, end - s.channelTagBits - s.eventTagBits, s.eventTagBits)
            && ItemAt(s, bytes, i).channelTag == ReadBits(bytes, end - s.channelTagBits, s.channelTagBits)
            && Offset(s, i) + s.itemBits <= end - s.channelTagBits - s.eventTagBits
  {
    hide Offset, ReadBits;
  }

  // ----- Sizes -----

  /** Bits from the start to the end of the last place. */
  ghost function End(s: PackingSpec, items: nat): nat
    requires ValidSpec(s)
  {
    if items == 0 then 0 else Offset(s, items - 1) + s.packingBits
  }

  /** The packings that are allowed. */
  ghost predicate Allowed(s: PackingSpec) {
    && 1 <= s.itemBits && 1 <= s.packingBits <= 64 && s.channelTagBits <= 15 && s.eventTagBits <= 7
    && s.itemBits + s.channelTagBits + s.eventTagBits <= s.packingBits
    && 1 <= s.vectorSize <= 65_535 && 1 <= s.repeatCount <= 65_536
    && (s.repeating == NoRepeat ==> s.repeatCount == 1) && (s.repeating == PerComponent ==> s.kind != Real)
    && (s.packing == Processing ==> s.packingBits <= 32)
  }

  lemma AllowedIsValid(s: PackingSpec)
    ensures ValidSpec(s) <==> Allowed(s)
  {
  }

  lemma CeilingIs(n: nat, d: nat)
    requires d > 0
    ensures Ceiling(n, d) == (n + d - 1) / d
  {
    var q, r := n / d, n % d;
    assert n == d * q + r;
    if r == 0 {
      DivisionUnique(n + d - 1, d, q, d - 1);
    } else {
      assert d * (q + 1) == d * q + d;
      DivisionUnique(n + d - 1, d, q + 1, r - 1);
    }
  }

  /** The words that the measure counts are the fewest that hold every place. */
  lemma WordsHold(s: PackingSpec, n: nat)
    requires ValidSpec(s)
    ensures (End(s, n) + 31) / 32 == if s.packing == Link then Ceiling(n * s.packingBits, 32)
                                     else Ceiling(n, PerWord(s))
  {
    hide Validate, Ceiling, PerWord;
    if s.packing == Link {
      CeilingIs(n * s.packingBits, 32);
      assert n > 0 ==> (n - 1) * s.packingBits + s.packingBits == n * s.packingBits;
    } else {
      CeilingIs(n, PerWord(s));
      if n > 0 {
        LastWord(s, n);
      } else {
        DivisionUnique(PerWord(s) - 1, PerWord(s), 0, PerWord(s) - 1);
      }
    }
  }

  lemma LastWord(s: PackingSpec, n: nat)
    requires ValidSpec(s) && s.packing == Processing && n > 0
    ensures (Offset(s, n - 1) + s.packingBits + 31) / 32 == (n + PerWord(s) - 1) / PerWord(s)
  {
    var w, per := s.packingBits, PerWord(s);
    WholeFields(s);
    hide Validate, PerWord, WordOffset;
    WordPlaces(w, per, n - 1);
    WordEnd(w, per, n - 1);
    LastQuotient(n, per);
    LastOfWord(WordOffset(w, per, n - 1), w, (n - 1) / per);
  }

  lemma LastQuotient(n: nat, per: nat)
    requires per > 0 && n > 0
    ensures (n + per - 1) / per == (n - 1) / per + 1
  {
    var q, k := (n - 1) / per, (n - 1) % per;
    assert n - 1 == per * q + k;
    NextQuotient(per, q);
    DivisionUnique(n + per - 1, per, q + 1, k);
  }

  lemma LastOfWord(x: nat, w: nat, q: nat)
    requires x / 32 == q && 1 <= w && x + w <= 32 * q + 32
    ensures (x + w + 31) / 32 == q + 1
  {
    assert x == 32 * q + x % 32;
    DivisionUnique(x + w + 31, 32, q + 1, x + w - 1 - 32 * q);
  }

  /** When a shape is accepted, and what it is: whole structures in the fewest words that hold every place. */
  lemma MeasureMeaning(s: PackingSpec, structures: nat, limits: Limits)
    ensures Measure(s, structures, limits).Ok? <==>
            && Allowed(s)
            && var n := structures * (s.vectorSize * s.repeatCount * Components(s.kind));
               var bytes := 4 * ((End(s, n) + 31) / 32);
               n <= limits.maxItems && bytes <= limits.maxBytes && 8 * bytes <= U64_MAX
    ensures Measure(s, structures, limits).Ok? ==>
              var n := structures * (s.vectorSize * s.repeatCount * Components(s.kind));
              Measure(s, structures, limits).value ==
              Shape(structures, s.vectorSize * s.repeatCount * Components(s.kind), n, 4 * ((End(s, n) + 31) / 32))
  {
    AllowedIsValid(s);
    if Allowed(s) {
      var c := Components(s.kind);
      GroupFits(s.vectorSize, s.repeatCount, c);
      var n := structures * (s.vectorSize * s.repeatCount * c);
      WordsHold(s, n);
      EnoughBits(s, n);
      hide Validate, PerWord, Ceiling, Offset, End;
    }
  }

  lemma GroupFits(v: nat, r: nat, c: nat)
    requires v <= 65_535 && r <= 65_536 && c <= 2
    ensures 0 <= v * r <= U64_MAX && 0 <= v * r * c <= U64_MAX
  {
    FactorMonotone(v, r, 65_536);
    FactorMonotone(v * r, c, 2);
  }

  /** The words measured have at least a bit for every item, and all bits of link-efficient items. */
  lemma EnoughBits(s: PackingSpec, n: nat)
    requires ValidSpec(s)
    ensures n <= 32 * ((End(s, n) + 31) / 32)
    ensures s.packing == Link ==> n * s.packingBits <= 32 * ((End(s, n) + 31) / 32)
  {
    if n > 0 {
      FirstBit(s, n - 1);
    }
    if s.packing == Link && n > 0 {
      assert (n - 1) * s.packingBits + s.packingBits == n * s.packingBits;
    }
  }

  lemma {:induction false} FirstBit(s: PackingSpec, i: nat)
    requires ValidSpec(s)
    ensures Offset(s, i) >= i
  {
    hide Offset;
    PlacesFollow(s, i);
    if i > 0 {
      FirstBit(s, i - 1);
      PlacesApart(s, i - 1, i);
    }
  }

  // ----- Order -----

  /** Lexicographic order of four numbers. */
  predicate Lex(a: nat, b: nat, c: nat, d: nat, w: nat, x: nat, y: nat, z: nat) {
    a < w || (a == w && (b < x || (b == x && (c < y || (c == y && d < z)))))
  }

  /**
   The order of items: structures first; then, without repetition, channels and their components; repeated per
   channel, channels, times and components; repeated per component, groups of as many samples as the count, each group
   one component after the other, with samples counted across channels and times.
   */
  predicate Precedes(s: PackingSpec, x: Coordinates, y: Coordinates)
    requires s.repeatCount > 0
  {
    match s.repeating
    case NoRepeat => Lex(x.structure, x.channel, x.component, 0, y.structure, y.channel, y.component, 0)
    case PerChannel => Lex(x.structure, x.channel, x.time, x.component, y.structure, y.channel, y.time, y.component)
    case PerComponent =>
      var i, j := x.time * s.vectorSize + x.channel, y.time * s.vectorSize + y.channel;
      Lex(x.structure, i / s.repeatCount, x.component, i % s.repeatCount,
          y.structure, j / s.repeatCount, y.component, j % s.repeatCount)
  }

  lemma FlatOrder(g: nat, a: nat, i: nat, b: nat, j: nat)
    requires i < g && j < g
    ensures a * g + i < b * g + j <==> a < b || (a == b && i < j)
  {
    if a < b {
      FactorMonotone(g, a + 1, b);
      assert g * (a + 1) == a * g + g;
    } else if b < a {
      FactorMonotone(g, b + 1, a);
      assert g * (b + 1) == b * g + g;
    }
  }

  lemma JoinOrder(c: nat, r: nat, a: nat, b: nat, d: nat, x: nat, y: nat, z: nat)
    requires b < c && d < r && y < c && z < r
    ensures Join(c, r, a, b, d) < Join(c, r, x, y, z) <==> a < x || (a == x && (b < y || (b == y && d < z)))
  {
    FlatOrder(c, a, b, x, y);
    FlatOrder(r, a * c + b, d, x * c + y, z);
    FlatOrder(c, x, y, a, b);
  }

  lemma LocalOrder(s: PackingSpec, x: Coordinates, y: Coordinates)
    requires Sized(s) && InStructure(s, x) && InStructure(s, y) && x.structure == y.structure
    ensures Local(s, x) < Local(s, y) <==> Precedes(s, x, y)
  {
    hide Join, Local;
    var c, r := Components(s.kind), s.repeatCount;
    var i, j := x.time * s.vectorSize + x.channel, y.time * s.vectorSize + y.channel;
    LocalIs(s, x, i);
    LocalIs(s, y, j);
    match s.repeating
    case PerComponent => GroupOrder(s, x, y, i, j, c, r);
    case PerChannel => JoinOrder(r, c, x.channel, x.time, x.component, y.channel, y.time, y.component);
    case NoRepeat => FlatOrder(c, x.channel, x.component, y.channel, y.component);
  }

  lemma GroupOrder(s: PackingSpec, x: Coordinates, y: Coordinates, i: nat, j: nat, c: nat, r: nat)
    requires r > 0 && x.component < c && y.component < c && r == s.repeatCount && s.repeating == PerComponent
    requires i == x.time * s.vectorSize + x.channel && j == y.time * s.vectorSize + y.channel
    requires x.structure == y.structure
    ensures Join(c, r, i / r, x.component, i % r) < Join(c, r, j / r, y.component, j % r) <==> Precedes(s, x, y)
  {
    hide Join;
    JoinOrder(c, r, i / r, x.component, i % r, j / r, y.component, j % r);
  }

  lemma LocalIs(s: PackingSpec, x: Coordinates, i: nat)
    requires Sized(s) && i == x.time * s.vectorSize + x.channel
    ensures Local(s, x) ==
            match s.repeating
            case PerComponent =>
              Join(Components(s.kind), s.repeatCount, i / s.repeatCount, x.component, i % s.repeatCount)
            case PerChannel => Join(s.repeatCount, Components(s.kind), x.channel, x.time, x.component)
            case NoRepeat => x.channel * Components(s.kind) + x.component
  {
    hide Join, Components;
  }

  /** Indices follow that order, which with one index per coordinate determines them. */
  lemma IndexOrder(s: PackingSpec, shape: Shape, x: Coordinates, y: Coordinates)
    requires Structured(s, shape) && InShape(s, shape, x) && InShape(s, shape, y)
    ensures IndexOf(s, shape, x).value < IndexOf(s, shape, y).value <==> Precedes(s, x, y)
  {
    hide Local, Group, Validate, Precedes;
    LocalInverse(s, x);
    LocalInverse(s, y);
    FlatOrder(shape.itemsPerStructure, x.structure, Local(s, x), y.structure, Local(s, y));
    if x.structure == y.structure {
      LocalOrder(s, x, y);
    } else {
      OtherStructure(s, x, y);
    }
  }

  lemma OtherStructure(s: PackingSpec, x: Coordinates, y: Coordinates)
    requires s.repeatCount > 0 && x.structure != y.structure
    ensures Precedes(s, x, y) <==> x.structure < y.structure
  {
  }
}
