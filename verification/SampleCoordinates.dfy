/**
 Where an item sits in its sample structure, and back
 (include/vita/codec/general_samples.hpp, PackedSamples::coordinates and index).
 */
module SampleCoordinates {
  import opened Core
  import opened NumberTheory
  import opened SamplePacking

  datatype Coordinates = Coordinates(structure: nat, time: nat, channel: nat, component: nat)

  predicate Sized(s: PackingSpec) { s.vectorSize > 0 && s.repeatCount > 0 }

  lemma ValidIsSized(s: PackingSpec)
    requires ValidSpec(s)
    ensures Sized(s) && (s.repeating == NoRepeat ==> s.repeatCount == 1)
  {
  }

  /** Product of two positive numbers. */
  function Times(a: nat, b: nat): (r: nat)
    requires a > 0 && b > 0
    ensures r > 0
  {
    FactorOrder(a, 0, b);
    a * b
  }

  /** Place within the structure of a local item number. */
  function Locate(s: PackingSpec, structure: nat, local: nat): Coordinates
    requires Sized(s)
  {
    hide Times, Regrouped, Components;
    var c, r, v := Components(s.kind), s.repeatCount, s.vectorSize;
    match s.repeating
    case PerComponent =>
      var linear := Regrouped(c, r, local);
      Coordinates(structure, linear / v, linear % v, (local / r) % c)
    case PerChannel => Coordinates(structure, (local / c) % r, local / Times(c, r), local % c)
    case NoRepeat => Coordinates(structure, 0, local / c, local % c)
  }

  /** Sample number of an item when each component is repeated in groups. */
  function Regrouped(c: nat, r: nat, local: nat): nat
    requires c > 0 && r > 0
  {
    (local / Times(c, r)) * r + local % r
  }

  function Local(s: PackingSpec, x: Coordinates): nat
    requires Sized(s)
  {
    var c, r := Components(s.kind), s.repeatCount;
    match s.repeating
    case PerComponent =>
      var linear := x.time * s.vectorSize + x.channel;
      Join(c, r, linear / r, x.component, linear % r)
    case PerChannel => Join(r, c, x.channel, x.time, x.component)
    case NoRepeat => x.channel * c + x.component
  }

  function CoordinatesOf(s: PackingSpec, shape: Shape, index: nat): Result<Coordinates>
    requires Sized(s) && shape.itemsPerStructure > 0
  {
    if index >= shape.items then Err(InvalidArgument)
    else Ok(Locate(s, index / shape.itemsPerStructure, index % shape.itemsPerStructure))
  }

  predicate InStructure(s: PackingSpec, x: Coordinates) {
    x.time < s.repeatCount && x.channel < s.vectorSize && x.component < Components(s.kind)
  }

  predicate InShape(s: PackingSpec, shape: Shape, x: Coordinates) {
    x.structure < shape.structures && InStructure(s, x)
  }

  function IndexOf(s: PackingSpec, shape: Shape, x: Coordinates): Result<nat>
    requires Sized(s)
  {
    if !InShape(s, shape, x) then Err(InvalidArgument) else Ok(x.structure * shape.itemsPerStructure + Local(s, x))
  }

  // ----- Three nested digits -----

  /** Low digit below `r`, middle digit below `c`. */
  function Join(c: nat, r: nat, high: nat, middle: nat, low: nat): nat {
    (high * c + middle) * r + low
  }

  lemma JoinDigits(c: nat, r: nat, high: nat, middle: nat, low: nat)
    requires middle < c && low < r
    ensures var x := Join(c, r, high, middle, low);
            x % r == low && (x / r) % c == middle && c * r > 0 && x / (c * r) == high
  {
    var x, y := Join(c, r, high, middle, low), high * c + middle;
    assert x == r * y + low;
    DivisionUnique(x, r, y, low);
    assert y == c * high + middle;
    DivisionUnique(y, c, high, middle);
    InnerBelow(c, r, middle, low);
    assert x == (c * r) * high + (middle * r + low) by {
      assert (high * c + middle) * r == high * c * r + middle * r;
      Assoc(high, c, r);
    }
    DivisionUnique(x, c * r, high, middle * r + low);
  }

  lemma InnerBelow(c: nat, r: nat, middle: nat, low: nat)
    requires middle < c && low < r
    ensures middle * r + low < c * r
  {
    FactorMonotone(r, middle + 1, c);
    assert r * (middle + 1) == middle * r + r;
  }

  /** Every number is the join of its digits. */
  lemma DigitsJoin(c: nat, r: nat, x: nat)
    requires c > 0 && r > 0
    ensures c * r > 0 && x == Join(c, r, x / (c * r), (x / r) % c, x % r)
  {
    var y := x / r;
    assert x == r * y + x % r && y == c * (y / c) + y % c;
    assert (y / c) * c == c * (y / c);
    assert x == Join(c, r, y / c, y % c, x % r);
    JoinDigits(c, r, y / c, y % c, x % r);
  }

  lemma JoinBelow(c: nat, r: nat, v: nat, high: nat, middle: nat, low: nat)
    requires middle < c && low < r
    ensures Join(c, r, high, middle, low) < v * (c * r) <==> high < v
  {
    InnerBelow(c, r, middle, low);
    var x := Join(c, r, high, middle, low);
    JoinDigits(c, r, high, middle, low);
    var d := c * r;
    assert x == d * high + x % d;
    FactorOrder(d, high, v);
    if high < v {
      FactorMonotone(d, high + 1, v);
      assert d * (high + 1) == d * high + d;
    }
  }

  // ----- One structure -----

  /** Samples counted across time and channel, and across the repeat groups of a component. */
  lemma LinearRange(r: nat, v: nat, time: nat, channel: nat)
    requires channel < v && r > 0
    ensures time < r <==> (time * v + channel) / r < v
    ensures (time * v + channel) / v == time && (time * v + channel) % v == channel
  {
    var linear := time * v + channel;
    DivisionUnique(linear, v, time, channel);
    BelowProduct(linear, v, r);
    BelowProduct(linear, r, v);
  }

  lemma BelowProduct(x: nat, d: nat, n: nat)
    requires d > 0
    ensures x / d < n <==> x < d * n
  {
    assert x == d * (x / d) + x % d;
    if x / d < n {
      FactorMonotone(d, x / d + 1, n);
      assert d * (x / d + 1) == d * (x / d) + d;
    } else {
      FactorMonotone(d, n, x / d);
    }
  }

  /** Size of a structure. */
  function Group(s: PackingSpec): nat { s.vectorSize * s.repeatCount * Components(s.kind) }

  lemma GroupForms(s: PackingSpec)
    ensures var c, r, v := Components(s.kind), s.repeatCount, s.vectorSize;
            Group(s) == v * (c * r) == v * (r * c) && c * r == r * c && (r == 1 ==> Group(s) == v * c)
  {
    var c, r, v := Components(s.kind), s.repeatCount, s.vectorSize;
    Assoc(v, r, c);
    assert c * r == r * c;
  }

  lemma ComponentThere(s: PackingSpec, x: Coordinates)
    requires Sized(s) && s.repeating == PerComponent && InStructure(s, x)
    ensures Local(s, x) < Group(s) && Locate(s, x.structure, Local(s, x)) == x
  {
    var c, r, v := Components(s.kind), s.repeatCount, s.vectorSize;
    var linear := x.time * v + x.channel;
    GroupForms(s);
    LinearRange(r, v, x.time, x.channel);
    hide Group;
    RegroupThere(c, r, v, linear, x.component);
  }

  lemma RegroupThere(c: nat, r: nat, v: nat, linear: nat, component: nat)
    requires r > 0 && component < c && linear / r < v
    ensures var local := Join(c, r, linear / r, component, linear % r);
            local < v * (c * r) && Regrouped(c, r, local) == linear && (local / r) % c == component
  {
    var high, low := linear / r, linear % r;
    JoinDigits(c, r, high, component, low);
    JoinBelow(c, r, v, high, component, low);
    hide Join;
    assert high * r + low == linear;
  }

  lemma ComponentBack(s: PackingSpec, structure: nat, local: nat)
    requires Sized(s) && s.repeating == PerComponent && local < Group(s)
    ensures InStructure(s, Locate(s, structure, local)) && Local(s, Locate(s, structure, local)) == local
  {
    var c, r, v := Components(s.kind), s.repeatCount, s.vectorSize;
    GroupForms(s);
    RegroupBack(c, r, v, local);
    var linear := Regrouped(c, r, local);
    LinearBack(r, v, linear);
    hide Group, Regrouped, Join;
  }

  lemma LinearBack(r: nat, v: nat, linear: nat)
    requires r > 0 && v > 0 && linear / r < v
    ensures linear / v < r && (linear / v) * v + linear % v == linear
  {
    assert (linear / v) * v + linear % v == linear;
    LinearRange(r, v, linear / v, linear % v);
  }

  lemma RegroupBack(c: nat, r: nat, v: nat, local: nat)
    requires c > 0 && r > 0 && local < v * (c * r)
    ensures var linear := Regrouped(c, r, local);
            linear / r < v && Join(c, r, linear / r, (local / r) % c, linear % r) == local
  {
    DigitsJoin(c, r, local);
    var high, low := local / Times(c, r), local % r;
    JoinBelow(c, r, v, high, (local / r) % c, low);
    var linear := high * r + low;
    assert linear == r * high + low;
    DivisionUnique(linear, r, high, low);
  }

  lemma ChannelThere(s: PackingSpec, x: Coordinates)
    requires Sized(s) && s.repeating == PerChannel && InStructure(s, x)
    ensures Local(s, x) < Group(s) && Locate(s, x.structure, Local(s, x)) == x
  {
    var c, r, v := Components(s.kind), s.repeatCount, s.vectorSize;
    GroupForms(s);
    JoinDigits(r, c, x.channel, x.time, x.component);
    JoinBelow(r, c, v, x.channel, x.time, x.component);
    hide Group, Join;
  }

  lemma ChannelBack(s: PackingSpec, structure: nat, local: nat)
    requires Sized(s) && s.repeating == PerChannel && local < Group(s)
    ensures InStructure(s, Locate(s, structure, local)) && Local(s, Locate(s, structure, local)) == local
  {
    var c, r, v := Components(s.kind), s.repeatCount, s.vectorSize;
    GroupForms(s);
    DigitsJoin(r, c, local);
    JoinBelow(r, c, v, local / Times(r, c), (local / c) % r, local % c);
    hide Group, Join;
  }

  lemma PlainThere(s: PackingSpec, x: Coordinates)
    requires Sized(s) && s.repeating == NoRepeat && s.repeatCount == 1 && InStructure(s, x)
    ensures Local(s, x) < Group(s) && Locate(s, x.structure, Local(s, x)) == x
  {
    var c, v := Components(s.kind), s.vectorSize;
    GroupForms(s);
    hide Group;
    assert x.channel * c == c * x.channel;
    DivisionUnique(Local(s, x), c, x.channel, x.component);
    BelowProduct(Local(s, x), c, v);
  }

  lemma PlainBack(s: PackingSpec, structure: nat, local: nat)
    requires Sized(s) && s.repeating == NoRepeat && s.repeatCount == 1 && local < Group(s)
    ensures InStructure(s, Locate(s, structure, local)) && Local(s, Locate(s, structure, local)) == local
  {
    var c, v := Components(s.kind), s.vectorSize;
    GroupForms(s);
    hide Group;
    BelowProduct(local, c, v);
    assert local == (local / c) * c + local % c;
  }

  lemma LocalInverse(s: PackingSpec, x: Coordinates)
    requires ValidSpec(s) && Sized(s) && InStructure(s, x)
    ensures Local(s, x) < Group(s) && Locate(s, x.structure, Local(s, x)) == x
  {
    hide Local, Locate, Group, Validate;
    ValidIsSized(s);
    match s.repeating
    case PerComponent => ComponentThere(s, x);
    case PerChannel => ChannelThere(s, x);
    case NoRepeat => PlainThere(s, x);
  }

  lemma LocateInverse(s: PackingSpec, structure: nat, local: nat)
    requires ValidSpec(s) && Sized(s) && local < Group(s)
    ensures InStructure(s, Locate(s, structure, local)) && Local(s, Locate(s, structure, local)) == local
    ensures Locate(s, structure, local).structure == structure
  {
    hide Local, Group, Validate, Regrouped, Times;
    ValidIsSized(s);
    match s.repeating
    case PerComponent => ComponentBack(s, structure, local);
    case PerChannel => ChannelBack(s, structure, local);
    case NoRepeat => PlainBack(s, structure, local);
  }

  // ----- Whole shapes -----

  lemma GroupPositive(s: PackingSpec)
    requires Sized(s)
    ensures Group(s) > 0
  {
    assert Group(s) == Times(Times(s.vectorSize, s.repeatCount), Components(s.kind));
  }

  /** A measured shape consists of whole structures. */
  ghost predicate Structured(s: PackingSpec, shape: Shape) {
    ValidSpec(s) && Sized(s) && shape.itemsPerStructure == Group(s) > 0
      && shape.items == shape.structures * Group(s) <= U64_MAX
  }

  lemma MeasuredGroup(s: PackingSpec, structures: nat, limits: Limits)
    requires Measure(s, structures, limits).Ok?
    ensures Structured(s, Measure(s, structures, limits).value)
    ensures Measure(s, structures, limits).value.structures == structures
  {
    ValidIsSized(s);
    GroupPositive(s);
    hide PerWord, Ceiling, Validate;
  }

  /** Every coordinate in the shape has its own index, which leads back to it. */
  lemma IndexThenCoordinates(s: PackingSpec, shape: Shape, x: Coordinates)
    requires Structured(s, shape)
    ensures IndexOf(s, shape, x).Ok? <==> InShape(s, shape, x)
    ensures InShape(s, shape, x) ==> CoordinatesOf(s, shape, IndexOf(s, shape, x).value) == Ok(x)
  {
    hide Local, Locate, Group, Validate;
    if InShape(s, shape, x) {
      LocalInverse(s, x);
      var g, local := shape.itemsPerStructure, Local(s, x);
      Flatten(shape.structures, g, x.structure, local);
    }
  }

  lemma Flatten(structures: nat, g: nat, structure: nat, local: nat)
    requires local < g && structure < structures
    ensures var index := structure * g + local;
            index < structures * g && index / g == structure && index % g == local
  {
    var index := structure * g + local;
    assert index == g * structure + local;
    DivisionUnique(index, g, structure, local);
    BelowProduct(index, g, structures);
  }

  /** Every index has coordinates in the shape, which lead back to it. */
  lemma CoordinatesThenIndex(s: PackingSpec, shape: Shape, index: nat)
    requires Structured(s, shape)
    ensures CoordinatesOf(s, shape, index).Ok? <==> index < shape.items
    ensures index < shape.items ==> InShape(s, shape, CoordinatesOf(s, shape, index).value)
                                    && IndexOf(s, shape, CoordinatesOf(s, shape, index).value) == Ok(index)
  {
    hide Local, Locate, Group, Validate;
    if index < shape.items {
      var g := shape.itemsPerStructure;
      Unflatten(shape.structures, g, index);
      LocateInverse(s, index / g, index % g);
    }
  }

  lemma Unflatten(structures: nat, g: nat, index: nat)
    requires g > 0 && index < structures * g
    ensures index / g < structures && (index / g) * g + index % g == index
  {
    assert structures * g == g * structures;
    BelowProduct(index, g, structures);
  }
}
