/**
 The traversal as the code performs it, with a shared budget and a visitor that records what it is shown
 (include/vita/codec/array_cif.hpp, walk, validate and View::visit).
 */
module ArrayCifWalkers {
  import opened Core
  import opened Envelopes
  import opened ArrayCifs
  import opened ArrayCifLaws

  /** Which record of which array, outermost first. */
  datatype Step = Step(ordinal: nat, index: Word)

  datatype Element = Element(field: FieldId, attribute: nat, span: seq<Octet>, path: seq<Step>)

  // ----- What a visitor is shown -----

  function Span(body: seq<Octet>, start: nat, size: nat): seq<Octet> {
    if start + size <= |body| then body[start..start + size] else []
  }

  function ReportItem(c: Config, body: seq<Octet>, item: Item, path: seq<Step>): seq<Element>
    decreases item, 0
  {
    (if item.nested.Nest? && item.start <= |body| then ReportArray(c, body[item.start..], item.nested.tree, path)
     else [])
    + [Element(item.field, item.attribute, Span(body, item.start, item.size), path)]
  }

  function ReportItems(c: Config, body: seq<Octet>, items: seq<Item>, path: seq<Step>): seq<Element>
    decreases items
  {
    if items == [] then [] else ReportItem(c, body, items[0], path) + ReportItems(c, body, items[1..], path)
  }

  function ReportRecords(c: Config, h: ArrayHeader, bytes: seq<Octet>, records: seq<Record>, k: nat,
                         path: seq<Step>): seq<Element>
    requires HeaderFits(h, bytes)
    decreases records
  {
    if records == [] || k >= h.records then []
    else
      ReportItems(c, Body(h, bytes, k), records[0].items, path + [Step(k, records[0].index)]) +
      ReportRecords(c, h, bytes, records[1..], k + 1, path)
  }

  function ReportArray(c: Config, bytes: seq<Octet>, t: Tree, path: seq<Step>): seq<Element>
    decreases t, 1
  {
    match ParseHeader(c, bytes)
    case Err(_) => []
    case Ok(h) => ReportRecords(c, h, bytes, t.records, 0, path)
  }

  // ----- Walking -----

  function PrependItems(done: seq<Item>, r: Result<(seq<Item>, nat, Usage)>): Result<(seq<Item>, nat, Usage)> {
    match r
    case Err(code) => Err(code)
    case Ok((items, end, u)) => Ok((done + items, end, u))
  }

  function PrependRecords(done: seq<Record>, r: Result<(seq<Record>, Usage)>): Result<(seq<Record>, Usage)> {
    match r
    case Err(code) => Err(code)
    case Ok((records, u)) => Ok((done + records, u))
  }

  lemma {:induction false} ReportItemsAppend(c: Config, body: seq<Octet>, items: seq<Item>, item: Item, path: seq<Step>)
    ensures ReportItems(c, body, items + [item], path) ==
              ReportItems(c, body, items, path) + ReportItem(c, body, item, path)
    decreases |items|
  {
    hide ReportItem;
    if items == [] {
      assert [item][1..] == [];
      assert ReportItems(c, body, [], path) == [];
    } else {
      ReportItemsAppend(c, body, items[1..], item, path);
      assert (items + [item])[1..] == items[1..] + [item];
    }
  }

  lemma {:induction false} ReportRecordsAppend(c: Config, h: ArrayHeader, bytes: seq<Octet>, records: seq<Record>,
                                               record: Record, k: nat, path: seq<Step>)
    requires HeaderFits(h, bytes) && k + |records| < h.records
    ensures ReportRecords(c, h, bytes, records + [record], k, path) ==
            ReportRecords(c, h, bytes, records, k, path)
            + ReportItems(c, Body(h, bytes, k + |records|), record.items, path + [Step(k + |records|, record.index)])
    decreases |records|
  {
    hide ReportItems, Body, HeaderFits;
    if records == [] {
      assert [record][1..] == [];
      assert ReportRecords(c, h, bytes, [], k + 1, path) == [];
    } else {
      ReportRecordsAppend(c, h, bytes, records[1..], record, k + 1, path);
      assert (records + [record])[1..] == records[1..] + [record];
    }
  }

  lemma ItemsStep(c: Config, body: seq<Octet>, pairs: seq<(FieldId, nat)>, i: nat, attributes: seq<nat>, at: nat,
                  depth: nat, work: nat, u: Usage, done: seq<Item>)
    requires depth < 4 && i < |pairs|
    ensures var rest := PrependItems(done, WalkItems(c, body, pairs[i..], attributes, at, depth, work, u));
            match TakeItem(c, body, pairs[i].0, pairs[i].1, attributes, at, depth, work, u)
            case Err(code) => rest == Err(code)
            case Ok((item, v)) =>
              rest == PrependItems(done + [item],
                                   WalkItems(c, body, pairs[i + 1..], attributes, at + item.size, depth,
                                             work + item.units, v))
  {
    hide TakeItem;
    assert pairs[i..][0] == pairs[i] && pairs[i..][1..] == pairs[i + 1..];
    match TakeItem(c, body, pairs[i].0, pairs[i].1, attributes, at, depth, work, u)
    case Err(_) =>
    case Ok((item, v)) =>
      match WalkItems(c, body, pairs[i + 1..], attributes, at + item.size, depth, work + item.units, v)
      case Err(_) =>
      case Ok((items, end, w)) => assert done + ([item] + items) == done + [item] + items;
  }

  lemma RecordsStep(c: Config, h: ArrayHeader, bytes: seq<Octet>, depth: nat, k: nat, u: Usage, done: seq<Record>)
    requires HeaderFits(h, bytes) && depth < 4 && k < h.records
    ensures var rest := PrependRecords(done, WalkRecords(c, h, bytes, depth, k, u));
            match TakeRecord(c, h, Body(h, bytes, k), depth, u)
            case Err(code) => rest == Err(code)
            case Ok((record, v)) => rest == PrependRecords(done + [record], WalkRecords(c, h, bytes, depth, k + 1, v))
  {
    hide TakeRecord, HeaderFits, Body;
    match TakeRecord(c, h, Body(h, bytes, k), depth, u)
    case Err(_) =>
    case Ok((record, v)) =>
      match WalkRecords(c, h, bytes, depth, k + 1, v)
      case Err(_) =>
      case Ok((records, w)) => assert done + ([record] + records) == done + [record] + records;
  }

  /** The budget cursor of one traversal together with its visitor. */
  class Walker {
    const config: Config
    var usage: Usage
    var report: seq<Element>

    constructor (config: Config, usage: Usage)
      ensures this.config == config && this.usage == usage && report == []
    {
      this.config, this.usage, report := config, usage, [];
    }

    method Walk(bytes: seq<Octet>, path: seq<Step>) returns (r: Result<nat>, ghost tree: Tree)
      modifies this
      ensures match WalkArray(config, bytes, |path|, old(usage))
              case Err(code) => r == Err(code)
              case Ok((t, v)) =>
                ParseHeader(config, bytes).Ok? && r == Ok(ParseHeader(config, bytes).value.bytes) && usage == v
                  && tree == t
                                 && report == old(report) + ReportArray(config, bytes, t, path)
      decreases if |path| <= 4 then 5 - |path| else 0, 4, 0
    {
      hide WalkRecords, ReportRecords, HeaderFits, ParseHeader;
      tree := Tree(0, []);
      var parsed := ParseHeader(config, bytes);
      if parsed.Err? {
        return Err(parsed.error), tree;
      }
      var h := parsed.value;
      if |path| >= 4 || |path| >= config.limits.maxDepth || h.records > config.limits.maxRecords {
        return Err(ResourceLimit), tree;
      }
      if !Allows(usage.work, config.limits.maxWork, 1) {
        return Err(ResourceLimit), tree;
      }
      usage := usage.(work := usage.work + 1);
      ghost var records;
      r, records := WalkAll(h, bytes, path);
      tree := Tree(|h.fields|, records);
    }

    /** One record after the other. */
    method WalkAll(h: ArrayHeader, bytes: seq<Octet>, path: seq<Step>) returns (r: Result<nat>, ghost done: seq<Record>)
      requires HeaderFits(h, bytes) && |path| < 4
      modifies this
      ensures match WalkRecords(config, h, bytes, |path|, 0, old(usage))
              case Err(code) => r == Err(code)
              case Ok((records, v)) => r == Ok(h.bytes) && usage == v && done == records
                                       && report == old(report) + ReportRecords(config, h, bytes, records, 0, path)
      decreases 5 - |path|, 3, 0
    {
      hide WalkRecords, ReportRecords, TakeRecord, Body, HeaderFits, ReportItems;
      ghost var u := usage;
      done := [];
      StartRecords(config, h, bytes, |path|, u, path);
      for k := 0 to h.records
        invariant |done| == k
        invariant WalkRecords(config, h, bytes, |path|, 0, u) ==
                    PrependRecords(done, WalkRecords(config, h, bytes, |path|, k, usage))
        invariant report == old(report) + ReportRecords(config, h, bytes, done, 0, path)
      {
        RecordsStep(config, h, bytes, |path|, k, usage, done);
        ghost var record;
        r, record := WalkRecord(h, Body(h, bytes, k), k, path);
        if r.Err? {
          return;
        }
        ReportRecordsAppend(config, h, bytes, done, record, 0, path);
        done := done + [record];
      }
      EndRecords(config, h, bytes, |path|, usage, done);
      return Ok(h.bytes), done;
    }

    method WalkRecord(h: ArrayHeader, body: seq<Octet>, k: nat, path: seq<Step>)
      returns (r: Result<nat>, ghost record: Record)
      requires |path| < 4 && |body| >= 4
      modifies this
      ensures match TakeRecord(config, h, body, |path|, old(usage))
              case Err(code) => r == Err(code)
              case Ok((found, v)) => r.Ok? && usage == v && record == found
                                     && report == old(report) +
                                     ReportItems(config, body, found.items, path + [Step(k, found.index)])
      decreases 5 - |path|, 2, 0
    {
      hide WalkItems, ReportItems, TakeItem, Load, Pairs;
      record := Record(0, []);
      var index := Load(body);
      if !Allows(usage.work, config.limits.maxWork, 1) {
        return Err(ResourceLimit), record;
      }
      usage := usage.(work := usage.work + 1);
      if !Allows(usage.fields, config.limits.maxFields, |h.fields|) {
        return Err(ResourceLimit), record;
      }
      usage := usage.(fields := usage.fields + |h.fields|);
      ghost var items;
      r, items := WalkBody(body, Pairs(h.fields, h.attributes), h.attributes, |path|, path + [Step(k, index)]);
      if r.Err? {
        return r, record;
      }
      if r.value != |body| {
        return Err(InvalidArgument), record;
      }
      record := Record(index, items);
    }

    /** Every selected field with each of its attributes, from behind the index word. */
    method WalkBody(body: seq<Octet>, pairs: seq<(FieldId, nat)>, attributes: seq<nat>, depth: nat, path: seq<Step>)
      returns (r: Result<nat>, ghost items: seq<Item>)
      requires depth < 4 && |path| == depth + 1
      modifies this
      ensures match WalkItems(config, body, pairs, attributes, 4, depth, 0, old(usage))
              case Err(code) => r == Err(code)
              case Ok((found, end, v)) =>
                r == Ok(end) && usage == v && items == found
                  && report == old(report) + ReportItems(config, body, found, path)
      decreases 5 - depth, 1, |pairs|
    {
      hide TakeItem, ReportItem, WalkItems, ReportItems;
      var at, work := 4, 0;
      ghost var u := usage;
      items := [];
      StartItems(config, body, pairs, attributes, depth, u, path);
      for i := 0 to |pairs|
        invariant WalkItems(config, body, pairs, attributes, 4, depth, 0, u) ==
                  PrependItems(items, WalkItems(config, body, pairs[i..], attributes, at, depth, work, usage))
        invariant report == old(report) + ReportItems(config, body, items, path)
      {
        ItemsStep(config, body, pairs, i, attributes, at, depth, work, usage, items);
        ghost var item;
        var taken;
        taken, item := WalkItem(body, pairs[i].0, pairs[i].1, attributes, at, depth, work, path);
        if taken.Err? {
          return Err(taken.error), items;
        }
        ReportItemsAppend(config, body, items, item, path);
        items := items + [item];
        at, work := at + taken.value.0, work + taken.value.1;
      }
      EndItems(config, body, pairs, attributes, at, depth, work, usage, items);
      return Ok(at), items;
    }

    /** Measures, checks, pays for and reports one field; the answer is its size and its units of work. */
    method WalkItem(body: seq<Octet>, id: FieldId, attribute: nat, attributes: seq<nat>, at: nat, depth: nat, work: nat,
                    path: seq<Step>)
      returns (r: Result<(nat, nat)>, ghost item: Item)
      requires depth < 4 && |path| == depth + 1
      modifies this
      ensures match TakeItem(config, body, id, attribute, attributes, at, depth, work, old(usage))
              case Err(code) => r == Err(code)
              case Ok((found, v)) => r == Ok((found.size, found.units)) && usage == v && item == found
                                     && report == old(report) + ReportItem(config, body, found, path)
      decreases 5 - depth, 0, 0
    {
      hide WalkArray, ReportArray, Selectable, PlainExtent, WithinFieldLimits, ParseHeader;
      item := Item(id, attribute, at, 0, 0, Plain);
      if !Selectable(config, id, attributes) {
        return Err(UnsupportedLayout), item;
      }
      if at > |body| {
        return Err(ShortInput), item;
      }
      var e;
      if IsNested(id, attribute) {
        ghost var tree;
        var nested;
        nested, tree := Walk(body[at..], path);
        if nested.Err? {
          return Err(nested.error), item;
        }
        e := Extent(nested.value, 0, 0, 0);
        NestInside(config, body, at, depth + 1, old(usage));
        item := Item(id, attribute, at, e.bytes, 0, Nest(tree));
      } else {
        var measured := PlainExtent(config, id, attribute, body[at..]);
        if measured.Err? {
          return Err(measured.error), item;
        }
        e := measured.value;
        if e.bytes > |body| - at {
          return Err(ShortInput), item;
        }
        var valid := config.schema.check(id, attribute, body[at..at + e.bytes]);
        if valid.Err? {
          return Err(valid.error), item;
        }
        item := Item(id, attribute, at, e.bytes, e.units, Plain);
      }
      if !WithinFieldLimits(config, id, attribute, e) || !Allows(usage.work, config.limits.maxWork, e.units)
         || !Allows(work, config.limits.maxWork, e.units) || !Allows(usage.views, config.limits.maxViews, 1) {
        return Err(ResourceLimit), item;
      }
      usage := usage.(work := usage.work + e.units, views := usage.views + 1);
      report := report + [Element(id, attribute, Span(body, at, e.bytes), path)];
      return Ok((e.bytes, e.units)), item;
    }
  }

  lemma StartRecords(c: Config, h: ArrayHeader, bytes: seq<Octet>, depth: nat, u: Usage, path: seq<Step>)
    requires HeaderFits(h, bytes) && depth < 4
    ensures WalkRecords(c, h, bytes, depth, 0, u) == PrependRecords([], WalkRecords(c, h, bytes, depth, 0, u))
    ensures ReportRecords(c, h, bytes, [], 0, path) == []
  {
    hide WalkRecords, HeaderFits;
    match WalkRecords(c, h, bytes, depth, 0, u)
    case Err(_) =>
    case Ok((records, v)) => assert [] + records == records;
  }

  lemma EndRecords(c: Config, h: ArrayHeader, bytes: seq<Octet>, depth: nat, u: Usage, done: seq<Record>)
    requires HeaderFits(h, bytes) && depth < 4
    ensures PrependRecords(done, WalkRecords(c, h, bytes, depth, h.records, u)) == Ok((done, u))
  {
    hide HeaderFits, TakeRecord;
    assert done + [] == done;
  }

  lemma StartItems(c: Config, body: seq<Octet>, pairs: seq<(FieldId, nat)>, attributes: seq<nat>, depth: nat, u: Usage,
                   path: seq<Step>)
    requires depth < 4
    ensures WalkItems(c, body, pairs, attributes, 4, depth, 0, u) ==
              PrependItems([], WalkItems(c, body, pairs[0..], attributes, 4, depth, 0, u))
    ensures ReportItems(c, body, [], path) == []
  {
    hide WalkItems;
    assert pairs[0..] == pairs;
    match WalkItems(c, body, pairs, attributes, 4, depth, 0, u)
    case Err(_) =>
    case Ok((items, end, v)) => assert [] + items == items;
  }

  lemma EndItems(c: Config, body: seq<Octet>, pairs: seq<(FieldId, nat)>, attributes: seq<nat>, at: nat, depth: nat,
                 work: nat, u: Usage, done: seq<Item>)
    requires depth < 4
    ensures PrependItems(done, WalkItems(c, body, pairs[|pairs|..], attributes, at, depth, work, u)) ==
              Ok((done, at, u))
  {
    hide TakeItem;
    assert done + [] == done;
  }

  lemma NestInside(c: Config, body: seq<Octet>, at: nat, depth: nat, u: Usage)
    requires at <= |body| && WalkArray(c, body[at..], depth, u).Ok?
    ensures ParseHeader(c, body[at..]).Ok? && ParseHeader(c, body[at..]).value.bytes <= |body| - at
  {
    hide WalkRecords, ParseHeader;
  }

  // ----- Elements and views -----

  /** A tiled array reports exactly one element per view. */
  lemma {:induction false} ReportCount(c: Config, bytes: seq<Octet>, t: Tree, depth: nat, path: seq<Step>)
    requires Tiles(c, bytes, t, depth) && depth < 4
    ensures |ReportArray(c, bytes, t, path)| == Cost(t).views
    decreases 5 - depth, 3, 0
  {
    hide Body, ParseHeader, FillsBody, HeaderFits, RecordsCost, ReportRecords;
    var h := ParseHeader(c, bytes).value;
    forall i | 0 <= i < |t.records|
      ensures FillsBody(c, h, Body(h, bytes, 0 + i), t.records[i], depth)
    {
      assert FillsBody(c, h, Body(h, bytes, i), t.records[i], depth);
    }
    RecordsCount(c, h, bytes, t.records, 0, depth, path);
  }

  lemma {:induction false} RecordsCount(c: Config, h: ArrayHeader, bytes: seq<Octet>, records: seq<Record>, k: nat,
                                        depth: nat, path: seq<Step>)
    requires HeaderFits(h, bytes) && k + |records| == h.records && depth < 4
    requires forall i :: 0 <= i < |records| ==> FillsBody(c, h, Body(h, bytes, k + i), records[i], depth)
    ensures |ReportRecords(c, h, bytes, records, k, path)| == RecordsCost(|h.fields|, records).views
    decreases 5 - depth, 2, |records|
  {
    hide Body, HeaderFits, FillsBody, ItemsCost, ReportItems;
    if records != [] {
      var first, rest := records[0], records[1..];
      assert FillsBody(c, h, Body(h, bytes, k + 0), records[0], depth);
      BodyCount(c, h, Body(h, bytes, k), first, depth, path + [Step(k, first.index)]);
      forall i | 0 <= i < |rest|
        ensures FillsBody(c, h, Body(h, bytes, k + 1 + i), rest[i], depth)
      {
        assert FillsBody(c, h, Body(h, bytes, k + (i + 1)), records[i + 1], depth);
      }
      RecordsCount(c, h, bytes, rest, k + 1, depth, path);
    }
  }

  lemma {:induction false} BodyCount(c: Config, h: ArrayHeader, body: seq<Octet>, record: Record, depth: nat,
                                     path: seq<Step>)
    requires |body| >= 4 && FillsBody(c, h, body, record, depth) && depth < 4
    ensures |ReportItems(c, body, record.items, path)| == ItemsCost(record.items).views
    decreases 5 - depth, 1, |record.items| + 1
  {
    hide Sound, Selectable, Load, ItemsCost, ReportItems;
    ItemsCount(c, body, record.items, depth, path);
  }

  lemma {:induction false} ItemsCount(c: Config, body: seq<Octet>, items: seq<Item>, depth: nat, path: seq<Step>)
    requires depth < 4 && forall i :: 0 <= i < |items| ==> Sound(c, body, items[i], depth)
    ensures |ReportItems(c, body, items, path)| == ItemsCost(items).views
    decreases 5 - depth, 1, |items|
  {
    hide Sound, ReportItem, ItemCost;
    if items != [] {
      ItemCount(c, body, items[0], depth, path);
      ItemsCount(c, body, items[1..], depth, path);
    }
  }

  lemma {:induction false} ItemCount(c: Config, body: seq<Octet>, item: Item, depth: nat, path: seq<Step>)
    requires depth < 4 && Sound(c, body, item, depth)
    ensures |ReportItem(c, body, item, path)| == ItemCost(item).views
    decreases 5 - depth, 0, 0
  {
    hide Tiles, ParseHeader, SoundField, WithinFieldLimits, Cost, ReportArray, Span;
    if item.nested.Nest? {
      TilesDepth(c, body[item.start..], item.nested.tree, depth + 1);
      ReportCount(c, body[item.start..], item.nested.tree, depth + 1, path);
    }
  }

  lemma TilesDepth(c: Config, bytes: seq<Octet>, t: Tree, depth: nat)
    requires Tiles(c, bytes, t, depth)
    ensures depth < 4
  {
    hide ParseHeader, FillsBody;
  }

  // ----- Validation and later visits -----

  /** A validated array, with the budget its visits start from. */
  datatype ArrayView = ArrayView(bytes: seq<Octet>, config: Config, initial: Usage)

  class Budget {
    var usage: Usage

    constructor (usage: Usage)
      ensures this.usage == usage
    {
      this.usage := usage;
    }
  }

  /** A tiling of all the bytes. */
  ghost predicate Fits(c: Config, bytes: seq<Octet>, t: Tree) {
    Tiles(c, bytes, t, 0) && ParseHeader(c, bytes).value.bytes == |bytes|
  }

  /** Everything that accepting an array charges: its own field, and its traversal. */
  function FullCost(t: Tree): Usage { Plus(Usage(1, 0, 0), Cost(t)) }

  /**
   Accepts an array that fills its field exactly; only then is the shared budget charged, by exactly the cost. An
   array is accepted if and only if it is tiled exactly and the budget bears its cost; it is nested at most four deep.
   */
  method Validate(config: Config, bytes: seq<Octet>, shared: Budget) returns (r: Result<ArrayView>, ghost tree: Tree)
    modifies shared
    ensures r.Err? ==> shared.usage == old(shared.usage)
    ensures r.Ok? ==>
              && Fits(config, bytes, tree) && Height(tree) <= 4
              && Bears(config, old(shared.usage), FullCost(tree))
              && shared.usage == Plus(old(shared.usage), FullCost(tree))
              && r.value.bytes == bytes && r.value.config == config
              && WalkArray(config, bytes, 0, r.value.initial) == Ok((tree, shared.usage))
    ensures forall t :: Fits(config, bytes, t) && Bears(config, old(shared.usage), FullCost(t)) ==> r.Ok? && tree == t
  {
    hide WalkArray, Tiles, ReportArray, ParseHeader, Cost;
    tree := Tree(0, []);
    ValidateFinds(config, bytes, shared.usage);
    var parsed := ParseHeader(config, bytes);
    if parsed.Err? {
      return Err(parsed.error), tree;
    }
    if parsed.value.bytes != |bytes| {
      return Err(InvalidArgument), tree;
    }
    var candidate := shared.usage;
    if !Allows(candidate.fields, config.limits.maxFields, 1) {
      return Err(ResourceLimit), tree;
    }
    candidate := candidate.(fields := candidate.fields + 1);
    var walker := new Walker(config, candidate);
    var walked;
    walked, tree := walker.Walk(bytes, []);
    if walked.Err? {
      return Err(walked.error), tree;
    }
    WalkArrayTiles(config, bytes, 0, candidate);
    TilesHeight(config, bytes, tree, 0);
    BornFields(config, candidate, tree);
    BearsSum(config, shared.usage, Usage(1, 0, 0), Cost(tree));
    PlusAssoc(shared.usage, Usage(1, 0, 0), Cost(tree));
    shared.usage := walker.usage;
    return Ok(ArrayView(bytes, config, candidate)), tree;
  }

  /** A tiling whose full cost the budget bears passes every test of validation. */
  lemma ValidateFinds(c: Config, bytes: seq<Octet>, u: Usage)
    ensures forall t :: Tiles(c, bytes, t, 0) && Bears(c, u, FullCost(t)) ==>
              && ParseHeader(c, bytes).Ok? && Allows(u.fields, c.limits.maxFields, 1)
              && WalkArray(c, bytes, 0, u.(fields := u.fields + 1)) ==
                Ok((t, Plus(u.(fields := u.fields + 1), Cost(t))))
  {
    hide WalkArray, ParseHeader, Tiles, Cost;
    forall t | Tiles(c, bytes, t, 0) && Bears(c, u, FullCost(t))
      ensures ParseHeader(c, bytes).Ok? && Allows(u.fields, c.limits.maxFields, 1)
      ensures WalkArray(c, bytes, 0, u.(fields := u.fields + 1)) == Ok((t, Plus(u.(fields := u.fields + 1), Cost(t))))
    {
      HeaderOfTiles(c, bytes, t, 0);
      BearsSum(c, u, Usage(1, 0, 0), Cost(t));
      BornFields(c, u.(fields := u.fields + 1), t);
      WalkArrayFinds(c, bytes, t, 0, u.(fields := u.fields + 1));
    }
  }

  /** A later visit cannot fail and shows exactly as many elements as views were charged. */
  method Visit(view: ArrayView, ghost tree: Tree, ghost after: Usage) returns (r: Result<()>, report: seq<Element>)
    requires WalkArray(view.config, view.bytes, 0, view.initial) == Ok((tree, after))
    ensures r.Ok? && report == ReportArray(view.config, view.bytes, tree, [])
    ensures |report| == Cost(tree).views == after.views - view.initial.views
  {
    hide WalkArray, Tiles, ReportArray, ParseHeader, Cost;
    var walker := new Walker(view.config, view.initial);
    var walked;
    ghost var found;
    walked, found := walker.Walk(view.bytes, []);
    WalkArrayTiles(view.config, view.bytes, 0, view.initial);
    ReportCount(view.config, view.bytes, tree, 0, []);
    r := match walked case Ok(_) => Ok(()) case Err(code) => Err(code);
    return r, walker.report;
  }
}
