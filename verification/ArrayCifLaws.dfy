/**
 What an accepted array looks like, and what its traversal costs and reports
 (include/vita/codec/array_cif.hpp).
 */
module ArrayCifLaws {
  import opened Core
  import opened Envelopes
  import opened ArrayCifs

  // ----- What an array costs -----

  const FREE := Usage(0, 0, 0)

  function Plus(a: Usage, b: Usage): Usage { Usage(a.fields + b.fields, a.views + b.views, a.work + b.work) }

  /** One unit of work for the array, one for each record with its fields, and the items, nested ones included. */
  function Cost(t: Tree): Usage
    decreases t
  {
    Plus(Usage(0, 0, 1), RecordsCost(t.fields, t.records))
  }

  function RecordsCost(fields: nat, records: seq<Record>): Usage
    decreases records
  {
    if records == [] then FREE
    else Plus(Plus(Usage(fields, 0, 1), ItemsCost(records[0].items)), RecordsCost(fields, records[1..]))
  }

  function ItemsCost(items: seq<Item>): Usage
    decreases items
  {
    if items == [] then FREE else Plus(ItemCost(items[0]), ItemsCost(items[1..]))
  }

  /** A view and its units of work, after what is nested in the item. */
  function ItemCost(item: Item): Usage
    decreases item
  {
    Plus(if item.nested.Plain? then FREE else Cost(item.nested.tree), Usage(0, 1, item.units))
  }

  // ----- Tiling -----

  /** Each item begins where the one before it ends, from `from` to `to`. */
  ghost predicate Consecutive(items: seq<Item>, from: nat, to: nat)
    decreases items
  {
    if items == [] then from == to else items[0].start == from && Consecutive(items[1..], from + items[0].size, to)
  }

  /** A plain field has the extent and contents its schema asks for. */
  ghost predicate SoundField(c: Config, body: seq<Octet>, item: Item)
    requires item.start + item.size <= |body|
  {
    var e := PlainExtent(c, item.field, item.attribute, body[item.start..]);
    && e.Ok? && e.value.bytes == item.size && e.value.units == item.units
    && c.schema.check(item.field, item.attribute, body[item.start..item.start + item.size]).Ok?
    && WithinFieldLimits(c, item.field, item.attribute, e.value)
  }

  /** An item lies in its record and is a nested array or a field in order. */
  ghost predicate Sound(c: Config, body: seq<Octet>, item: Item, depth: nat)
    decreases item, 0
  {
    && item.start + item.size <= |body|
    && (item.nested.Nest? <==> IsNested(item.field, item.attribute))
    && (item.nested.Nest? ==>
          && item.units == 0 && WithinFieldLimits(c, item.field, item.attribute, Extent(item.size, 0, 0, 0))
          && Tiles(c, body[item.start..], item.nested.tree, depth + 1)
          && ParseHeader(c, body[item.start..]).value.bytes == item.size)
    && (item.nested.Plain? ==> SoundField(c, body, item))
  }

  /** The selected fields, in order, fill the record from a position to its end. */
  ghost predicate FillsRecord(c: Config, body: seq<Octet>, pairs: seq<(FieldId, nat)>, attributes: seq<nat>,
                              items: seq<Item>, from: nat, depth: nat)
    decreases items
  {
    && |items| == |pairs| && Consecutive(items, from, |body|)
    && (forall i :: 0 <= i < |items| ==> (items[i].field, items[i].attribute) == pairs[i])
    && (forall i :: 0 <= i < |items| ==> Selectable(c, items[i].field, attributes))
    && (forall i :: 0 <= i < |items| ==> Sound(c, body, items[i], depth))
  }

  ghost predicate FillsBody(c: Config, h: ArrayHeader, body: seq<Octet>, record: Record, depth: nat)
    requires |body| >= 4
    decreases record
  {
    record.index == Load(body)
      && FillsRecord(c, body, Pairs(h.fields, h.attributes), h.attributes, record.items, 4, depth)
  }

  ghost predicate Tiles(c: Config, bytes: seq<Octet>, t: Tree, depth: nat)
    decreases t, 1
  {
    && ParseHeader(c, bytes).Ok?
    && var h := ParseHeader(c, bytes).value;
    && depth < 4 && depth < c.limits.maxDepth && t.fields == |h.fields|
    && |t.records| == h.records <= c.limits.maxRecords
    && forall k :: 0 <= k < |t.records| ==> FillsBody(c, h, Body(h, bytes, k), t.records[k], depth)
  }

  // ----- The budget -----

  /** The budget bears a cost: what was charged to a counter kept it within its limit. */
  predicate Bears(c: Config, u: Usage, cost: Usage) {
    && u.work + cost.work <= c.limits.maxWork
    && u.fields + cost.fields <= c.limits.maxFields
    && (cost.views > 0 ==> u.views + cost.views <= c.limits.maxViews)
  }

  /** An array without records charges no fields, whatever was charged before. */
  predicate Affordable(c: Config, u: Usage, t: Tree) {
    Bears(c, if t.records == [] then u.(fields := 0) else u, Cost(t))
  }

  // ----- Every successful walk tiles and pays exactly -----

  lemma PayBears(c: Config, units: nat, work: nat, u: Usage)
    requires work <= u.work && u.fields <= c.limits.maxFields
    ensures Pay(c, units, work, u).Ok? <==> Bears(c, u, Usage(0, 1, units))
    ensures Pay(c, units, work, u).Ok? ==> Pay(c, units, work, u).value == Plus(u, Usage(0, 1, units))
  {
  }

  lemma PlusAssoc(a: Usage, b: Usage, d: Usage)
    ensures Plus(Plus(a, b), d) == Plus(a, Plus(b, d))
  {
  }

  /** A budget bears two costs in turn exactly when it bears their sum. */
  lemma BearsSum(c: Config, u: Usage, a: Usage, b: Usage)
    ensures Bears(c, u, Plus(a, b)) ==> Bears(c, u, a) && Bears(c, Plus(u, a), b)
    ensures Bears(c, u, a) && Bears(c, Plus(u, a), b) ==> Bears(c, u, Plus(a, b))
  {
  }

  /** What is known where items are walked: the record has been charged. */
  predicate Charged(c: Config, work: nat, u: Usage) {
    work <= u.work <= c.limits.maxWork && u.fields <= c.limits.maxFields
  }

  lemma ChargedOn(c: Config, work: nat, u: Usage, cost: Usage, units: nat)
    requires Charged(c, work, u) && Bears(c, u, cost) && units <= cost.work
    ensures Charged(c, work + units, Plus(u, cost))
  {
  }

  /** The outcome of a walk: what was found is sound, was charged exactly, and the budget bore it. */
  ghost predicate Settles(c: Config, u: Usage, v: Usage, cost: Usage) {
    v == Plus(u, cost) && Bears(c, u, cost)
  }

  lemma {:induction false} TakeItemTiles(c: Config, body: seq<Octet>, id: FieldId, attribute: nat, attributes: seq<nat>,
                                         at: nat, depth: nat, work: nat, u: Usage)
    requires depth < 4 && Charged(c, work, u) && TakeItem(c, body, id, attribute, attributes, at, depth, work, u).Ok?
    ensures var (item, v) := TakeItem(c, body, id, attribute, attributes, at, depth, work, u).value;
            && item.field == id && item.attribute == attribute && item.start == at && Selectable(c, id, attributes)
            && Sound(c, body, item, depth) && Settles(c, u, v, ItemCost(item))
    decreases 5 - depth, 0, 0
  {
    hide PayFor, TakePlain, Sound, ItemCost, Settles, Selectable, WalkArray, ParseHeader, Charged;
    if IsNested(id, attribute) {
      WalkArrayTiles(c, body[at..], depth + 1, u);
      var (tree, v) := WalkArray(c, body[at..], depth + 1, u).value;
      NestTiles(c, body, id, attribute, at, depth, work, u, tree, v);
    } else {
      PlainTiles(c, body, id, attribute, at, depth, work, u);
    }
  }

  lemma NestTiles(c: Config, body: seq<Octet>, id: FieldId, attribute: nat, at: nat, depth: nat, work: nat, u: Usage,
                  tree: Tree, v: Usage)
    requires at <= |body| && Tiles(c, body[at..], tree, depth + 1) && IsNested(id, attribute)
    requires Charged(c, work, u) && Affordable(c, u, tree) && v == Plus(u, Cost(tree))
    ensures ParseHeader(c, body[at..]).Ok?
    ensures var size := ParseHeader(c, body[at..]).value.bytes;
            var item := Item(id, attribute, at, size, 0, Nest(tree));
            var paid := PayFor(c, item, Extent(size, 0, 0, 0), work, v);
            paid.Ok? ==> paid.value.0 == item && Sound(c, body, item, depth)
                         && Settles(c, u, paid.value.1, ItemCost(item))
  {
    hide Tiles, WithinFieldLimits, ParseHeader, HeaderFits, Pay, Bears, Cost, Affordable, Charged;
    HeaderOfTiles(c, body[at..], tree, depth + 1);
    var cost := Cost(tree);
    FieldsCharged(c, work, u);
    BornFields(c, u, tree);
    ChargedOn(c, work, u, cost, 0);
    FieldsCharged(c, work, v);
    PayBears(c, 0, work, v);
    BearsSum(c, u, cost, Usage(0, 1, 0));
    PlusAssoc(u, cost, Usage(0, 1, 0));
  }

  lemma HeaderOfTiles(c: Config, bytes: seq<Octet>, t: Tree, depth: nat)
    requires Tiles(c, bytes, t, depth)
    ensures ParseHeader(c, bytes).Ok? && ParseHeader(c, bytes).value.bytes <= |bytes|
  {
    hide ParseHeader, FillsBody;
  }

  lemma FieldsCharged(c: Config, work: nat, u: Usage)
    requires Charged(c, work, u)
    ensures u.fields <= c.limits.maxFields && work <= u.work
  {
  }

  lemma CostOfNone(t: Tree)
    ensures t.records == [] ==> Cost(t) == Usage(0, 0, 1)
  {
  }

  /** Once a record has been charged, affording an array is bearing its cost. */
  lemma BornFields(c: Config, u: Usage, t: Tree)
    requires u.fields <= c.limits.maxFields
    ensures Affordable(c, u, t) <==> Bears(c, u, Cost(t))
  {
    CostOfNone(t);
    hide Cost;
  }

  lemma PlainTiles(c: Config, body: seq<Octet>, id: FieldId, attribute: nat, at: nat, depth: nat, work: nat, u: Usage)
    requires at <= |body| && !IsNested(id, attribute) && Charged(c, work, u)
    requires TakePlain(c, body, id, attribute, at, work, u).Ok?
    ensures var (item, v) := TakePlain(c, body, id, attribute, at, work, u).value;
            && item.field == id && item.attribute == attribute && item.start == at
            && Sound(c, body, item, depth) && Settles(c, u, v, ItemCost(item))
  {
    hide PlainExtent, WithinFieldLimits, Tiles, Pay, Bears, Charged, ItemCost, Plus;
    var e := PlainExtent(c, id, attribute, body[at..]).value;
    FieldsCharged(c, work, u);
    PayBears(c, e.units, work, u);
    PlainCost(Item(id, attribute, at, e.bytes, e.units, Plain));
  }

  lemma PlainCost(item: Item)
    ensures item.nested.Plain? ==> ItemCost(item) == Usage(0, 1, item.units)
  {
    hide Cost;
  }

  lemma UnitsWithin(item: Item)
    ensures item.units <= ItemCost(item).work
  {
    hide Cost;
  }

  lemma {:induction false} WalkItemsTiles(c: Config, body: seq<Octet>, pairs: seq<(FieldId, nat)>, attributes: seq<nat>,
                                          at: nat, depth: nat, work: nat, u: Usage)
    requires depth < 4 && Charged(c, work, u) && WalkItems(c, body, pairs, attributes, at, depth, work, u).Ok?
    ensures var (items, end, v) := WalkItems(c, body, pairs, attributes, at, depth, work, u).value;
            && Settles(c, u, v, ItemsCost(items))
            && (end == |body| ==> FillsRecord(c, body, pairs, attributes, items, at, depth))
    decreases 5 - depth, 1, |pairs|
  {
    hide Sound, TakeItem, ItemCost, ItemsCost, Selectable, Bears, Charged, FillsRecord, WalkItems, Plus, PrependItem;
    if pairs == [] {
      WalkNoItems(c, body, attributes, at, depth, work, u);
      FillsNothing(c, body, attributes, at, depth);
      NothingCosts(c, work, u);
    } else {
      WalkItemsUnfold(c, body, pairs, attributes, at, depth, work, u);
      TakeItemTiles(c, body, pairs[0].0, pairs[0].1, attributes, at, depth, work, u);
      var (first, v) := TakeItem(c, body, pairs[0].0, pairs[0].1, attributes, at, depth, work, u).value;
      UnitsWithin(first);
      ChargedOn(c, work, u, ItemCost(first), first.units);
      WalkItemsTiles(c, body, pairs[1..], attributes, at + first.size, depth, work + first.units, v);
      var (rest, end, w) := WalkItems(c, body, pairs[1..], attributes, at + first.size, depth, work + first.units,
                                      v).value;
      var items := [first] + rest;
      assert items[0] == first && items[1..] == rest;
      ItemsCostSplit(items);
      Prepended(items, end, u, ItemCost(first), ItemsCost(rest));
      BearsSum(c, u, ItemCost(first), ItemsCost(rest));
      if end == |body| {
        FillsMore(c, body, pairs, attributes, first, rest, at, depth);
      }
    }
  }

  lemma WalkItemsUnfold(c: Config, body: seq<Octet>, pairs: seq<(FieldId, nat)>, attributes: seq<nat>, at: nat,
                        depth: nat, work: nat, u: Usage)
    requires depth < 4 && pairs != [] && WalkItems(c, body, pairs, attributes, at, depth, work, u).Ok?
    ensures var taken := TakeItem(c, body, pairs[0].0, pairs[0].1, attributes, at, depth, work, u);
            && taken.Ok?
            && var (item, v) := taken.value;
            var rest := WalkItems(c, body, pairs[1..], attributes, at + item.size, depth, work + item.units, v);
            rest.Ok? && WalkItems(c, body, pairs, attributes, at, depth, work, u) == PrependItem(item, rest)
  {
    hide TakeItem;
  }

  lemma FillsNothing(c: Config, body: seq<Octet>, attributes: seq<nat>, at: nat, depth: nat)
    ensures at == |body| ==> FillsRecord(c, body, [], attributes, [], at, depth)
  {
  }

  lemma NothingCosts(c: Config, work: nat, u: Usage)
    requires Charged(c, work, u)
    ensures Plus(u, ItemsCost([])) == u && Bears(c, u, ItemsCost([]))
  {
  }

  lemma FillsMore(c: Config, body: seq<Octet>, pairs: seq<(FieldId, nat)>, attributes: seq<nat>, first: Item,
                  rest: seq<Item>, at: nat, depth: nat)
    requires pairs != [] && (first.field, first.attribute) == pairs[0] && first.start == at
    requires Sound(c, body, first, depth)
    requires Selectable(c, first.field, attributes)
    requires FillsRecord(c, body, pairs[1..], attributes, rest, at + first.size, depth)
    ensures FillsRecord(c, body, pairs, attributes, [first] + rest, at, depth)
  {
    hide Sound, Selectable;
    var items := [first] + rest;
    assert items[1..] == rest;
    forall i | 0 <= i < |items|
      ensures (items[i].field, items[i].attribute) == pairs[i] && Sound(c, body, items[i], depth)
      ensures Selectable(c, items[i].field, attributes)
    {
      if i > 0 {
        assert items[i] == rest[i - 1] && pairs[i] == pairs[1..][i - 1];
      }
    }
  }

  lemma {:induction false} TakeRecordTiles(c: Config, h: ArrayHeader, body: seq<Octet>, depth: nat, u: Usage)
    requires depth < 4 && |body| >= 4 && TakeRecord(c, h, body, depth, u).Ok?
    ensures var (record, v) := TakeRecord(c, h, body, depth, u).value;
            FillsBody(c, h, body, record, depth)
              && Settles(c, u, v, Plus(Usage(|h.fields|, 0, 1), ItemsCost(record.items)))
    decreases 5 - depth, 2, 0
  {
    hide FillsRecord, WalkItems, Load, ItemsCost, Pairs;
    var charge := Usage(|h.fields|, 0, 1);
    var v := Plus(u, charge);
    WalkItemsTiles(c, body, Pairs(h.fields, h.attributes), h.attributes, 4, depth, 0, v);
    var items := WalkItems(c, body, Pairs(h.fields, h.attributes), h.attributes, 4, depth, 0, v).value.0;
    BearsSum(c, u, charge, ItemsCost(items));
    PlusAssoc(u, charge, ItemsCost(items));
  }

  lemma {:induction false} WalkRecordsTiles(c: Config, h: ArrayHeader, bytes: seq<Octet>, depth: nat, k: nat, u: Usage)
    requires HeaderFits(h, bytes) && depth < 4 && k <= h.records && WalkRecords(c, h, bytes, depth, k, u).Ok?
    requires u.work <= c.limits.maxWork
    ensures var (records, v) := WalkRecords(c, h, bytes, depth, k, u).value;
            && |records| == h.records - k && v == Plus(u, RecordsCost(|h.fields|, records))
            && Bears(c, if records == [] then u.(fields := 0) else u, RecordsCost(|h.fields|, records))
            && forall i :: 0 <= i < |records| ==> FillsBody(c, h, Body(h, bytes, k + i), records[i], depth)
    decreases 5 - depth, 3, h.records - k
  {
    hide FillsBody, Body, TakeRecord, ItemsCost, HeaderFits;
    if k < h.records {
      TakeRecordTiles(c, h, Body(h, bytes, k), depth, u);
      var (first, v) := TakeRecord(c, h, Body(h, bytes, k), depth, u).value;
      var cost := Plus(Usage(|h.fields|, 0, 1), ItemsCost(first.items));
      WalkRecordsTiles(c, h, bytes, depth, k + 1, v);
      var (rest, w) := WalkRecords(c, h, bytes, depth, k + 1, v).value;
      var records := [first] + rest;
      assert records[1..] == rest;
      BearsSum(c, u, cost, RecordsCost(|h.fields|, rest));
      PlusAssoc(u, cost, RecordsCost(|h.fields|, rest));
      forall i | 0 <= i < |records|
        ensures FillsBody(c, h, Body(h, bytes, k + i), records[i], depth)
      {
        if i > 0 {
          assert records[i] == rest[i - 1];
          assert FillsBody(c, h, Body(h, bytes, k + 1 + (i - 1)), rest[i - 1], depth);
        }
      }
    }
  }

  /** A walk that succeeds has found an exact tiling, charged exactly its cost, and kept within the budget. */
  lemma {:induction false} WalkArrayTiles(c: Config, bytes: seq<Octet>, depth: nat, u: Usage)
    requires WalkArray(c, bytes, depth, u).Ok?
    ensures var (t, v) := WalkArray(c, bytes, depth, u).value;
            Tiles(c, bytes, t, depth) && v == Plus(u, Cost(t)) && Affordable(c, u, t)
    decreases if depth <= 4 then 5 - depth else 0, 4, 0
  {
    hide FillsBody, Body, WalkRecords, ParseHeader, HeaderFits, RecordsCost;
    var h := ParseHeader(c, bytes).value;
    var start := Usage(0, 0, 1);
    var v := Plus(u, start);
    WalkRecordsTiles(c, h, bytes, depth, 0, v);
    var records := WalkRecords(c, h, bytes, depth, 0, v).value.0;
    PlusAssoc(u, start, RecordsCost(|h.fields|, records));
    forall k | 0 <= k < |records|
      ensures FillsBody(c, h, Body(h, bytes, k), records[k], depth)
    {
      assert FillsBody(c, h, Body(h, bytes, 0 + k), records[k], depth);
    }
  }

  // ----- Every affordable tiling is found -----

  lemma {:induction false} TakeItemFinds(c: Config, body: seq<Octet>, item: Item, attributes: seq<nat>, depth: nat,
                                         work: nat, u: Usage)
    requires depth < 4 && Charged(c, work, u) && Selectable(c, item.field, attributes)
    requires Sound(c, body, item, depth) && Bears(c, u, ItemCost(item))
    ensures TakeItem(c, body, item.field, item.attribute, attributes, item.start, depth, work, u) ==
              Ok((item, Plus(u, ItemCost(item))))
    decreases 5 - depth, 0, 0
  {
    hide PlainExtent, WithinFieldLimits, WalkArray, ParseHeader, Tiles, Selectable, Pay, Bears, Cost;
    var own := Usage(0, 1, item.units);
    if item.nested.Nest? {
      var cost := Cost(item.nested.tree);
      BearsSum(c, u, cost, own);
      PlusAssoc(u, cost, own);
      BornFields(c, u, item.nested.tree);
      WalkArrayFinds(c, body[item.start..], item.nested.tree, depth + 1, u);
      ChargedOn(c, work, u, cost, 0);
      PayBears(c, 0, work, Plus(u, cost));
    } else {
      PlainCost(item);
      PayBears(c, item.units, work, u);
    }
  }

  lemma {:induction false} WalkItemsFinds(c: Config, body: seq<Octet>, pairs: seq<(FieldId, nat)>, attributes: seq<nat>,
                                          items: seq<Item>, at: nat, depth: nat, work: nat, u: Usage)
    requires depth < 4 && Charged(c, work, u) && FillsRecord(c, body, pairs, attributes, items, at, depth)
    requires Bears(c, u, ItemsCost(items))
    ensures WalkItems(c, body, pairs, attributes, at, depth, work, u) == Ok((items, |body|, Plus(u, ItemsCost(items))))
    decreases 5 - depth, 1, |items|
  {
    hide Sound, TakeItem, ItemCost, ItemsCost, Selectable, Bears, Charged, FillsRecord, WalkItems, Plus, PrependItem;
    RestFills(c, body, pairs, attributes, items, at, depth);
    if items == [] {
      WalkNoItems(c, body, attributes, at, depth, work, u);
    } else {
      var first, rest := items[0], items[1..];
      var cost, v := ItemCost(first), Plus(u, ItemCost(first));
      ItemsCostSplit(items);
      BearsSum(c, u, cost, ItemsCost(rest));
      TakeItemFinds(c, body, first, attributes, depth, work, u);
      UnitsWithin(first);
      ChargedOn(c, work, u, cost, first.units);
      WalkItemsFinds(c, body, pairs[1..], attributes, rest, at + first.size, depth, work + first.units, v);
      WalkItemsStep(c, body, pairs, attributes, at, depth, work, u, first, v);
      Prepended(items, |body|, u, cost, ItemsCost(rest));
    }
  }

  lemma WalkNoItems(c: Config, body: seq<Octet>, attributes: seq<nat>, at: nat, depth: nat, work: nat, u: Usage)
    requires depth < 4
    ensures WalkItems(c, body, [], attributes, at, depth, work, u) == Ok(([], at, Plus(u, ItemsCost([]))))
  {
    assert Plus(u, FREE) == u;
  }

  lemma ItemsCostSplit(items: seq<Item>)
    ensures items != [] ==> ItemsCost(items) == Plus(ItemCost(items[0]), ItemsCost(items[1..]))
  {
    hide ItemCost, Plus;
  }

  lemma Prepended(items: seq<Item>, end: nat, u: Usage, first: Usage, rest: Usage)
    requires items != []
    ensures PrependItem(items[0], Ok((items[1..], end, Plus(Plus(u, first), rest)))) ==
              Ok((items, end, Plus(u, Plus(first, rest))))
  {
    PlusAssoc(u, first, rest);
    assert [items[0]] + items[1..] == items;
  }

  lemma WalkItemsStep(c: Config, body: seq<Octet>, pairs: seq<(FieldId, nat)>, attributes: seq<nat>, at: nat,
                      depth: nat, work: nat, u: Usage, item: Item, v: Usage)
    requires depth < 4 && pairs != []
    requires TakeItem(c, body, pairs[0].0, pairs[0].1, attributes, at, depth, work, u) == Ok((item, v))
    ensures WalkItems(c, body, pairs, attributes, at, depth, work, u) ==
            PrependItem(item, WalkItems(c, body, pairs[1..], attributes, at + item.size, depth, work + item.units, v))
  {
    hide TakeItem;
  }

  lemma RestFills(c: Config, body: seq<Octet>, pairs: seq<(FieldId, nat)>, attributes: seq<nat>, items: seq<Item>,
                  at: nat, depth: nat)
    requires FillsRecord(c, body, pairs, attributes, items, at, depth)
    ensures items == [] ==> pairs == [] && at == |body|
    ensures items != [] ==>
              && pairs != [] && (items[0].field, items[0].attribute) == pairs[0] && items[0].start == at
              && Selectable(c, items[0].field, attributes) && Sound(c, body, items[0], depth)
              && FillsRecord(c, body, pairs[1..], attributes, items[1..], at + items[0].size, depth)
  {
    hide Sound, Selectable;
    if items == [] {
      return;
    }
    var rest := items[1..];
    forall i | 0 <= i < |rest|
      ensures (rest[i].field, rest[i].attribute) == pairs[1..][i] && Sound(c, body, rest[i], depth)
      ensures Selectable(c, rest[i].field, attributes)
    {
      assert rest[i] == items[i + 1] && pairs[1..][i] == pairs[i + 1];
    }
  }

  lemma {:induction false} TakeRecordFinds(c: Config, h: ArrayHeader, body: seq<Octet>, record: Record, depth: nat,
                                           u: Usage)
    requires depth < 4 && |body| >= 4 && FillsBody(c, h, body, record, depth)
    requires Bears(c, u, Plus(Usage(|h.fields|, 0, 1), ItemsCost(record.items)))
    ensures TakeRecord(c, h, body, depth, u) ==
              Ok((record, Plus(u, Plus(Usage(|h.fields|, 0, 1), ItemsCost(record.items)))))
    decreases 5 - depth, 2, 0
  {
    hide FillsRecord, WalkItems, Load, ItemsCost, Pairs;
    var charge := Usage(|h.fields|, 0, 1);
    BearsSum(c, u, charge, ItemsCost(record.items));
    PlusAssoc(u, charge, ItemsCost(record.items));
    WalkItemsFinds(c, body, Pairs(h.fields, h.attributes), h.attributes, record.items, 4, depth, 0, Plus(u, charge));
  }

  lemma {:induction false} WalkRecordsFinds(c: Config, h: ArrayHeader, bytes: seq<Octet>, records: seq<Record>,
                                            depth: nat, k: nat, u: Usage)
    requires HeaderFits(h, bytes) && depth < 4 && k + |records| == h.records
    requires forall i :: 0 <= i < |records| ==> FillsBody(c, h, Body(h, bytes, k + i), records[i], depth)
    requires Bears(c, if records == [] then u.(fields := 0) else u, RecordsCost(|h.fields|, records))
    ensures WalkRecords(c, h, bytes, depth, k, u) == Ok((records, Plus(u, RecordsCost(|h.fields|, records))))
    decreases 5 - depth, 3, |records|
  {
    hide FillsBody, Body, TakeRecord, ItemsCost, HeaderFits, Plus, Bears;
    if records == [] {
      NoRecords(c, h, bytes, depth, u);
    } else {
      var first, rest := records[0], records[1..];
      assert records == [first] + rest;
      var cost := Plus(Usage(|h.fields|, 0, 1), ItemsCost(first.items));
      BearsSum(c, u, cost, RecordsCost(|h.fields|, rest));
      PlusAssoc(u, cost, RecordsCost(|h.fields|, rest));
      assert FillsBody(c, h, Body(h, bytes, k + 0), records[0], depth);
      TakeRecordFinds(c, h, Body(h, bytes, k), first, depth, u);
      forall i | 0 <= i < |rest|
        ensures FillsBody(c, h, Body(h, bytes, k + 1 + i), rest[i], depth)
      {
        assert FillsBody(c, h, Body(h, bytes, k + (i + 1)), records[i + 1], depth);
      }
      BearsRest(c, Plus(u, cost), RecordsCost(|h.fields|, rest), rest == []);
      WalkRecordsFinds(c, h, bytes, rest, depth, k + 1, Plus(u, cost));
    }
  }

  lemma NoRecords(c: Config, h: ArrayHeader, bytes: seq<Octet>, depth: nat, u: Usage)
    requires HeaderFits(h, bytes) && depth < 4
    ensures WalkRecords(c, h, bytes, depth, h.records, u) == Ok(([], Plus(u, RecordsCost(|h.fields|, []))))
  {
    hide HeaderFits, TakeRecord;
    assert Plus(u, FREE) == u;
  }

  lemma BearsRest(c: Config, u: Usage, cost: Usage, none: bool)
    requires Bears(c, u, cost)
    ensures Bears(c, if none then u.(fields := 0) else u, cost)
  {
  }

  /** Every exact tiling whose cost the budget bears is found and accepted. */
  lemma {:induction false} WalkArrayFinds(c: Config, bytes: seq<Octet>, t: Tree, depth: nat, u: Usage)
    requires Tiles(c, bytes, t, depth) && Affordable(c, u, t)
    ensures WalkArray(c, bytes, depth, u) == Ok((t, Plus(u, Cost(t))))
    decreases if depth <= 4 then 5 - depth else 0, 4, 0
  {
    hide FillsBody, Body, WalkRecords, ParseHeader, HeaderFits, RecordsCost;
    var h := ParseHeader(c, bytes).value;
    var start, rest := Usage(0, 0, 1), RecordsCost(|h.fields|, t.records);
    PlusAssoc(u, start, rest);
    forall i | 0 <= i < |t.records|
      ensures FillsBody(c, h, Body(h, bytes, 0 + i), t.records[i], depth)
    {
      assert FillsBody(c, h, Body(h, bytes, i), t.records[i], depth);
    }
    WalkRecordsFinds(c, h, bytes, t.records, depth, 0, Plus(u, start));
  }

  /** A walk succeeds if and only if there is an exact tiling that the budget affords. */
  lemma WalkArrayAccepts(c: Config, bytes: seq<Octet>, depth: nat, u: Usage)
    ensures WalkArray(c, bytes, depth, u).Ok? <==> exists t :: Tiles(c, bytes, t, depth) && Affordable(c, u, t)
  {
    hide WalkArray, Tiles, Affordable;
    if WalkArray(c, bytes, depth, u).Ok? {
      WalkArrayTiles(c, bytes, depth, u);
      var t := WalkArray(c, bytes, depth, u).value.0;
      assert Tiles(c, bytes, t, depth) && Affordable(c, u, t);
    }
    if t :| Tiles(c, bytes, t, depth) && Affordable(c, u, t) {
      WalkArrayFinds(c, bytes, t, depth, u);
    }
  }

  // ----- Depth -----

  /** Nesting never goes deeper than four arrays. */
  function Height(t: Tree): nat
    decreases t
  {
    1 + RecordHeight(t.records)
  }

  function RecordHeight(records: seq<Record>): nat
    decreases records
  {
    if records == [] then 0 else Max(ItemHeight(records[0].items), RecordHeight(records[1..]))
  }

  function ItemHeight(items: seq<Item>): nat
    decreases items
  {
    if items == [] then 0 else Max(NestedHeight(items[0]), ItemHeight(items[1..]))
  }

  function NestedHeight(item: Item): nat
    decreases item
  {
    if item.nested.Plain? then 0 else Height(item.nested.tree)
  }

  function Max(a: nat, b: nat): nat { if a < b then b else a }

  lemma {:induction false} TilesHeight(c: Config, bytes: seq<Octet>, t: Tree, depth: nat)
    requires Tiles(c, bytes, t, depth)
    ensures depth + Height(t) <= 4 && depth + Height(t) <= c.limits.maxDepth
    decreases t, 1
  {
    hide Load, Body, ParseHeader, Sound;
    var h := ParseHeader(c, bytes).value;
    forall k | 0 <= k < |t.records|
      ensures depth + 1 + ItemHeight(t.records[k].items) <= 4
      ensures depth + 1 + ItemHeight(t.records[k].items) <= c.limits.maxDepth
    {
      assert FillsBody(c, h, Body(h, bytes, k), t.records[k], depth);
      ItemsHeight(c, Body(h, bytes, k), t.records[k].items, depth);
    }
    RecordsHeight(t.records, 4 - depth - 1);
    RecordsHeight(t.records, c.limits.maxDepth - depth - 1);
  }

  lemma {:induction false} ItemsHeight(c: Config, body: seq<Octet>, items: seq<Item>, depth: nat)
    requires depth < 4 && depth < c.limits.maxDepth && forall i :: 0 <= i < |items| ==> Sound(c, body, items[i], depth)
    ensures depth + 1 + ItemHeight(items) <= 4 && depth + 1 + ItemHeight(items) <= c.limits.maxDepth
    decreases items, 0
  {
    hide ParseHeader, Tiles;
    if items != [] {
      assert Sound(c, body, items[0], depth);
      OneHeight(c, body, items[0], depth);
      ItemsHeight(c, body, items[1..], depth);
    }
  }

  lemma {:induction false} OneHeight(c: Config, body: seq<Octet>, item: Item, depth: nat)
    requires depth < 4 && depth < c.limits.maxDepth && Sound(c, body, item, depth)
    ensures depth + 1 + NestedHeight(item) <= 4 && depth + 1 + NestedHeight(item) <= c.limits.maxDepth
    decreases item
  {
    hide ParseHeader, Tiles;
    if item.nested.Nest? {
      TilesHeight(c, body[item.start..], item.nested.tree, depth + 1);
    }
  }

  lemma {:induction false} RecordsHeight(records: seq<Record>, bound: nat)
    requires forall k :: 0 <= k < |records| ==> ItemHeight(records[k].items) <= bound
    ensures RecordHeight(records) <= bound
  {
    if records != [] {
      RecordsHeight(records[1..], bound);
    }
  }
}
