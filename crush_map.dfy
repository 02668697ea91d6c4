/**
 * The topology half of a crush map: devices, bucket types, buckets and rules
 * as loaded from a crush map document, the lookups over them, the one-level
 * descent by bucket type, and the recursive expansion of a bucket into the
 * devices beneath it.
 */
module CrushMaps {
  import opened Wrappers
  import opened Seqs

  /** Why an operation fails. */
  datatype Error =
    | NotFound           // a first-match lookup that indexes `[0]` of an empty result
    | InvalidRuleFormat  // an `emit` step reached before any `take`

  /** A leaf storage device (an OSD); its id is non-negative. */
  datatype Device = Device(id: int, name: string)

  /** A level of the hierarchy (host, rack, zone, root, ...). */
  datatype BucketType = BucketType(typeId: int, name: string)

  /**
   * A container node. `items` holds the ids of its children in order: a
   * non-negative id names a device, a negative one another bucket. Item
   * weights are never read and are not modelled.
   */
  datatype Bucket = Bucket(id: int, name: string, typeId: int, typeName: string, items: seq<int>)

  /** One step of a rule, decoded from its `op` string. */
  datatype Step =
    | Take(item: int)
      /** Any of choose_firstn, chooseleaf_firstn, choose_indep, chooseleaf_indep. */
    | Choose(typeName: string)
    | Emit
      /**
       * Every other op, which evaluation skips. Decoding never yields it for
       * take, emit or the four choose ops.
       */
    | Other(op: string)

  datatype Rule = Rule(ruleName: string, steps: seq<Step>)

  /**
   * What a walk collects: one entry per device id reached, `None` where the
   * id names no device (`get_all_osds_by_bucket` appends the `None` it gets back).
   */
  type DeviceEntries = seq<Option<Device>>

  /** The caller-owned list that a walk appends to. */
  class DeviceList {
    var entries: DeviceEntries

    constructor ()
      ensures entries == []
    {
      entries := [];
    }
  }

  /** Keeps the buckets whose type has this id. */
  function HasTypeId(typeId: int): Bucket -> bool {
    (b: Bucket) => b.typeId == typeId
  }

  /** Keeps the buckets that sit at the named level. */
  function HasTypeName(typeName: string): Bucket -> bool {
    (c: Bucket) => c.typeName == typeName
  }

  /** A loaded crush map; nothing changes it after loading. */
  datatype CrushMap = CrushMap(
    tunables: map<string, string>,
    devices: seq<Device>,
    rules: seq<Rule>,
    types: seq<BucketType>,
    buckets: seq<Bucket>)
  {
    /** The raw value of a tunable; a missing key is a failed lookup. */
    function TunableValue(parameter: string): (r: Option<string>)
      ensures r.Some? <==> parameter in tunables
      ensures r.Some? ==> r.value == tunables[parameter]
    {
      if parameter in tunables then Some(tunables[parameter]) else None
    }

    /** The first type with this name; none is a failure. */
    function TypeByName(typeName: string): (r: Result<BucketType, Error>)
      ensures r.Err? <==> forall i :: 0 <= i < |types| ==> types[i].name != typeName
      ensures r.Err? ==> r.error == NotFound
      ensures r.Ok? ==> r.value.name == typeName && FirstMatch(types, r.value, (t: BucketType) => t.name == typeName)
    {
      match FindFirst(types, (t: BucketType) => t.name == typeName)
      case None => Err(NotFound)
      case Some(i) => Ok(types[i])
    }

    /** The first bucket with this id; none is a failure. */
    function BucketById(id: int): (r: Result<Bucket, Error>)
      ensures r.Err? <==> forall i :: 0 <= i < |buckets| ==> buckets[i].id != id
      ensures r.Err? ==> r.error == NotFound
      ensures r.Ok? ==> r.value.id == id && r.value in buckets
    {
      match FindFirst(buckets, (b: Bucket) => b.id == id)
      case None => Err(NotFound)
      case Some(i) => Ok(buckets[i])
    }

    /** When several buckets share an id, the lookup returns the first of them. */
    lemma BucketByIdIsFirst(id: int)
      requires BucketById(id).Ok?
      ensures FirstMatch(buckets, BucketById(id).value, (b: Bucket) => b.id == id)
    {
      var i := FindFirst(buckets, (b: Bucket) => b.id == id).value;
      assert buckets[i] == BucketById(id).value;
    }

    /**
     * The buckets of the named type, in load order. An unknown type name
     * fails, because the type lookup fails before any filtering.
     */
    function BucketsByType(typeName: string): (r: Result<seq<Bucket>, Error>)
      ensures r.Err? <==> forall i :: 0 <= i < |types| ==> types[i].name != typeName
      ensures r.Err? ==> r.error == NotFound
      ensures r.Ok? ==> forall b :: b in r.value <==> b in buckets && b.typeId == TypeByName(typeName).value.typeId
      ensures r.Ok? ==> forall b :: multiset(r.value)[b] ==
                                      if b.typeId == TypeByName(typeName).value.typeId then multiset(buckets)[b] else 0
      ensures r.Ok? ==> exists idx :: SubsequenceAt(r.value, buckets, idx)
    {
      match TypeByName(typeName)
      case Err(e) => Err(e)
      case Ok(t) =>
        FilterCounts(buckets, HasTypeId(t.typeId));
        FilterKeepsOrder(buckets, HasTypeId(t.typeId));
        Ok(Filter(buckets, HasTypeId(t.typeId)))
    }

    /** The first bucket with this name, or nothing. */
    function BucketsByName(name: string): (r: Option<Bucket>)
      ensures r.None? <==> forall i :: 0 <= i < |buckets| ==> buckets[i].name != name
      ensures r.Some? ==> r.value.name == name && FirstMatch(buckets, r.value, (b: Bucket) => b.name == name)
    {
      match FindFirst(buckets, (b: Bucket) => b.name == name)
      case None => None
      case Some(i) => Some(buckets[i])
    }

    /** The first rule with this name, or nothing. */
    function RulesByName(name: string): (r: Option<Rule>)
      ensures r.None? <==> forall i :: 0 <= i < |rules| ==> rules[i].ruleName != name
      ensures r.Some? ==> r.value.ruleName == name && FirstMatch(rules, r.value, (u: Rule) => u.ruleName == name)
    {
      match FindFirst(rules, (u: Rule) => u.ruleName == name)
      case None => None
      case Some(i) => Some(rules[i])
    }

    /** The first device with this id, or nothing. */
    function OsdById(id: int): (r: Option<Device>)
      ensures r.None? <==> forall i :: 0 <= i < |devices| ==> devices[i].id != id
      ensures r.Some? ==> r.value.id == id && r.value in devices
      ensures r.Some? ==> FirstMatch(devices, r.value, (d: Device) => d.id == id)
    {
      match FindFirst(devices, (d: Device) => d.id == id)
      case None => None
      case Some(i) => Some(devices[i])
    }

    /**
     * Looks every id up as a bucket, in order; fails as soon as one is not
     * a bucket (a device id fails too).
     */
    ghost function ResolveAll(ids: seq<int>): (r: Result<seq<Bucket>, Error>)
      ensures r.Ok? <==> forall i :: 0 <= i < |ids| ==> BucketById(ids[i]).Ok?
      ensures r.Ok? ==> |r.value| == |ids| && forall i :: 0 <= i < |ids| ==> BucketById(ids[i]) == Ok(r.value[i])
      ensures r.Err? ==> r.error == NotFound
    {
      if ids == [] then Ok([])
      else
        match ResolveAll(ids[..|ids| - 1])
        case Err(e) => Err(e)
        case Ok(bs) =>
          match BucketById(ids[|ids| - 1])
          case Err(e) => Err(e)
          case Ok(b) => Ok(bs + [b])
    }

    /**
     * Specification of the one-level descent: the buckets named by the
     * items of bucket `id` whose type name is `typeName`, in item order.
     * Every item must itself be a bucket, or the descent fails.
     */
    ghost function ChildrenByType(id: int, typeName: string): (r: Result<seq<Bucket>, Error>)
      ensures r.Err? ==> r.error == NotFound
    {
      match BucketById(id)
      case Err(e) => Err(e)
      case Ok(b) =>
        match ResolveAll(b.items)
        case Err(e) => Err(e)
        case Ok(bs) => Ok(Filter(bs, HasTypeName(typeName)))
    }

    /**
     * A child is in the descent exactly when it is the bucket named by some
     * item and has the requested type name.
     */
    lemma ChildrenAreTypedItems(id: int, typeName: string)
      requires ChildrenByType(id, typeName).Ok?
      ensures forall c :: c in ChildrenByType(id, typeName).value <==>
                c.typeName == typeName &&
                exists i :: 0 <= i < |BucketById(id).value.items| && BucketById(BucketById(id).value.items[i]) == Ok(c)
      ensures forall c :: c in ChildrenByType(id, typeName).value ==> c in buckets
    {
    }

    /**
     * The descent succeeds exactly when the bucket exists and every one of
     * its items names a bucket; one device item is enough to make it fail.
     */
    lemma ChildrenByTypeSucceeds(id: int, typeName: string)
      ensures ChildrenByType(id, typeName).Ok? <==>
        BucketById(id).Ok? && forall i :: 0 <= i < |BucketById(id).value.items| ==> BucketById(BucketById(id).value.items[i]).Ok?
    {
    }

    lemma ResolveOneMore(ids: seq<int>, i: nat, b: Bucket)
      requires i < |ids| && ResolveAll(ids[..i]).Ok? && BucketById(ids[i]) == Ok(b)
      ensures ResolveAll(ids[..i + 1]) == Ok(ResolveAll(ids[..i]).value + [b])
    {
      assert ids[..i + 1][..i] == ids[..i];
    }

    lemma ResolveFails(ids: seq<int>, i: nat)
      requires i < |ids| && BucketById(ids[i]).Err?
      ensures ResolveAll(ids).Err?
    {
    }

    /** The children of bucket `id` that are buckets of type `typeName`. */
    method GetChildrenByType(id: int, typeName: string) returns (r: Result<seq<Bucket>, Error>)
      ensures r == ChildrenByType(id, typeName)
    {
      var children: seq<Bucket> := [];
      var found := BucketById(id);
      if found.Err? {
        return Err(found.error);
      }
      var bucket := found.value;
      ghost var resolved: seq<Bucket> := [];
      for i := 0 to |bucket.items|
        invariant ResolveAll(bucket.items[..i]) == Ok(resolved)
        invariant children == Filter(resolved, HasTypeName(typeName))
      {
        var child := BucketById(bucket.items[i]);
        if child.Err? {
          ResolveFails(bucket.items, i);
          return Err(child.error);
        }
        ResolveOneMore(bucket.items, i, child.value);
        FilterSnoc(resolved, child.value, HasTypeName(typeName));
        resolved := resolved + [child.value];
        if typeName == child.value.typeName {
          children := children + [child.value];
        }
      }
      assert bucket.items[..|bucket.items|] == bucket.items;
      return Ok(children);
    }

    /**
     * `rank` places every bucket strictly above each of its items, so that
     * the containment graph has no cycle.
     */
    ghost predicate RankedBy(rank: map<int, nat>) {
      forall b :: b in buckets ==>
        b.id in rank && forall x :: x in b.items ==> x in rank && rank[x] < rank[b.id]
    }

    /** The bucket containment graph is acyclic. */
    ghost predicate Acyclic() {
      exists rank :: RankedBy(rank)
    }

    ghost function Rank(): (rank: map<int, nat>)
      requires Acyclic()
      ensures RankedBy(rank)
    {
      var rank :| RankedBy(rank); rank
    }

    /** Termination measure for walks down the bucket graph. */
    ghost function Height(id: int): nat
      requires Acyclic()
    {
      if id in Rank() then Rank()[id] + 1 else 0
    }

    /**
     * Specification of the walk below `id`: a device id yields its device
     * lookup; a bucket id yields the walks of its items, concatenated in
     * item order (depth-first pre-order); an unknown bucket id fails.
     */
    ghost function Expand(id: int): (r: Result<DeviceEntries, Error>)
      requires Acyclic()
      ensures r.Err? ==> r.error == NotFound
      decreases Height(id), 1, 0
    {
      if id >= 0 then Ok([OsdById(id)])
      else
        match BucketById(id)
        case Err(e) => Err(e)
        case Ok(b) => ExpandItems(b, |b.items|)
    }

    /** The walks of the first `k` items of `b`, concatenated. */
    ghost function ExpandItems(b: Bucket, k: nat): (r: Result<DeviceEntries, Error>)
      requires Acyclic() && b in buckets && k <= |b.items|
      ensures r.Err? ==> r.error == NotFound
      decreases Height(b.id), 0, k
    {
      if k == 0 then Ok([])
      else
        match ExpandItems(b, k - 1)
        case Err(e) => Err(e)
        case Ok(prefix) =>
          match Expand(b.items[k - 1])
          case Err(e) => Err(e)
          case Ok(rest) => Ok(prefix + rest)
    }

    /**
     * Appends to `collected` every device below `id`, in depth-first
     * pre-order, and returns the same list. The entries already there stay
     * in front; on failure the list keeps what was appended before it.
     */
    method GetAllOsdsByBucket(id: int, collected: DeviceList) returns (r: Result<DeviceList, Error>)
      requires Acyclic()
      modifies collected
      ensures r.Ok? <==> Expand(id).Ok?
      ensures r.Ok? ==> r.value == collected && collected.entries == old(collected.entries) + Expand(id).value
      ensures r.Err? ==> r.error == NotFound && old(collected.entries) <= collected.entries
      decreases Height(id), 1
    {
      if id >= 0 {
        var osd := OsdById(id);
        collected.entries := collected.entries + [osd];
        return Ok(collected);
      }
      var found := BucketById(id);
      if found.Err? {
        return Err(found.error);
      }
      var bucket := found.value;
      for i := 0 to |bucket.items|
        invariant ExpandItems(bucket, i).Ok?
        invariant collected.entries == old(collected.entries) + ExpandItems(bucket, i).value
      {
        ItemIsLower(bucket, i);
        var sub := GetAllOsdsByBucket(bucket.items[i], collected);
        if sub.Err? {
          ExpandItemsFailureSticks(bucket, i + 1, |bucket.items|);
          return Err(sub.error);
        }
      }
      return Ok(collected);
    }

    /** An item of a bucket sits strictly lower in the containment graph than the bucket. */
    lemma ItemIsLower(b: Bucket, i: nat)
      requires Acyclic() && b in buckets && i < |b.items|
      ensures Height(b.items[i]) < Height(b.id)
    {
      assert RankedBy(Rank());
      assert b.items[i] in b.items;
    }

    /** Once a prefix of the items fails to expand, every longer prefix fails. */
    lemma {:induction false} ExpandItemsFailureSticks(b: Bucket, i: nat, k: nat)
      requires Acyclic() && b in buckets && i <= k <= |b.items|
      requires ExpandItems(b, i).Err?
      ensures ExpandItems(b, k).Err?
      decreases k
    {
      if i < k {
        ExpandItemsFailureSticks(b, i, k - 1);
      }
    }

    /** Every device a walk reaches is a loaded device with a non-negative id. */
    lemma {:induction false} ExpandYieldsDevices(id: int)
      requires Acyclic()
      ensures Expand(id).Ok? ==> forall k :: 0 <= k < |Expand(id).value| && Expand(id).value[k].Some? ==>
        Expand(id).value[k].value in devices && Expand(id).value[k].value.id >= 0
      decreases Height(id), 1, 0
    {
      if id < 0 && BucketById(id).Ok? {
        var b := BucketById(id).value;
        ExpandItemsYieldDevices(b, |b.items|);
      }
    }

    lemma {:induction false} ExpandItemsYieldDevices(b: Bucket, k: nat)
      requires Acyclic() && b in buckets && k <= |b.items|
      ensures ExpandItems(b, k).Ok? ==> forall j :: 0 <= j < |ExpandItems(b, k).value| && ExpandItems(b, k).value[j].Some? ==>
        ExpandItems(b, k).value[j].value in devices && ExpandItems(b, k).value[j].value.id >= 0
      decreases Height(b.id), 0, k
    {
      if k > 0 {
        ExpandItemsYieldDevices(b, k - 1);
        ExpandYieldsDevices(b.items[k - 1]);
      }
    }

    /**
     * A bucket holding only devices expands to the device lookups of its
     * items, one entry per item, in item order.
     */
    lemma {:induction false} ExpandLeafBucket(b: Bucket, k: nat)
      requires Acyclic() && b in buckets && k <= |b.items|
      requires forall x :: x in b.items ==> x >= 0
      ensures ExpandItems(b, k).Ok? && |ExpandItems(b, k).value| == k
      ensures forall j :: 0 <= j < k ==> ExpandItems(b, k).value[j] == OsdById(b.items[j])
    {
      if k > 0 {
        ExpandLeafBucket(b, k - 1);
        assert b.items[k - 1] in b.items;
        ExpandDeviceItem(b, k - 1);
      }
    }

    lemma ExpandDeviceItem(b: Bucket, k: nat)
      requires Acyclic() && b in buckets && k < |b.items| && b.items[k] >= 0 && ExpandItems(b, k).Ok?
      ensures ExpandItems(b, k + 1) == Ok(ExpandItems(b, k).value + [OsdById(b.items[k])])
    {
      assert Expand(b.items[k]) == Ok([OsdById(b.items[k])]);
    }
  }
}
