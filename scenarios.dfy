/**
 * A small concrete crush map: a root bucket -1 holding hosts -2 and -3,
 * which hold devices 0, 1 and 2, 3. The lemmas evaluate rules on it and
 * show how the interpreter behaves on a concrete topology.
 */
module Scenarios {
  import opened Wrappers
  import opened Seqs
  import opened CrushMaps
  import opened RuleEval

  const Osd0 := Device(0, "osd.0")
  const Osd1 := Device(1, "osd.1")
  const Osd2 := Device(2, "osd.2")
  const Osd3 := Device(3, "osd.3")

  const Root := Bucket(-1, "default", 10, "root", [-2, -3])
  const Host2 := Bucket(-2, "node1", 1, "host", [0, 1])
  const Host3 := Bucket(-3, "node2", 1, "host", [2, 3])

  const Example := CrushMap(
    map["profile" := "bobtail"],
    [Osd0, Osd1, Osd2, Osd3],
    [],
    [BucketType(0, "osd"), BucketType(1, "host"), BucketType(10, "root")],
    [Root, Host2, Host3])

  lemma ExampleIsAcyclic()
    ensures Example.Acyclic()
  {
    assert Example.RankedBy(map[-1 := 2, -2 := 1, -3 := 1, 0 := 0, 1 := 0, 2 := 0, 3 := 0]);
  }

  /** Each device id of the example names its device. */
  lemma DevicesResolve()
    ensures Example.OsdById(0) == Some(Osd0) && Example.OsdById(1) == Some(Osd1)
    ensures Example.OsdById(2) == Some(Osd2) && Example.OsdById(3) == Some(Osd3)
  {
    assert Example.devices[0] == Osd0 && Example.devices[1] == Osd1;
    assert Example.devices[2] == Osd2 && Example.devices[3] == Osd3;
  }

  /** Each bucket id of the example names its bucket. */
  lemma BucketsResolve()
    ensures Example.BucketById(-1) == Ok(Root)
    ensures Example.BucketById(-2) == Ok(Host2)
    ensures Example.BucketById(-3) == Ok(Host3)
  {
    assert Example.buckets[0] == Root && Example.buckets[1] == Host2 && Example.buckets[2] == Host3;
  }

  /** The walk below a bucket holding two devices lists them in item order. */
  lemma HostExpands(m: CrushMap, host: Bucket, first: Device, second: Device)
    requires m.Acyclic() && host.id < 0 && m.BucketById(host.id) == Ok(host)
    requires |host.items| == 2 && host.items[0] >= 0 && host.items[1] >= 0
    requires m.OsdById(host.items[0]) == Some(first) && m.OsdById(host.items[1]) == Some(second)
    ensures m.Expand(host.id) == Ok([Some(first), Some(second)])
  {
    assert m.Expand(host.id) == m.ExpandItems(host, 2);
    m.ExpandLeafBucket(host, 2);
    var walked := m.ExpandItems(host, 2).value;
    assert walked == [Some(first), Some(second)];
  }

  /** Descending below a bucket whose two items are buckets of the chosen type yields both, in item order. */
  lemma DescendTwo(m: CrushMap, b: Bucket, first: Bucket, second: Bucket, typeName: string)
    requires m.BucketById(b.id) == Ok(b) && b.items == [first.id, second.id]
    requires m.BucketById(first.id) == Ok(first) && m.BucketById(second.id) == Ok(second)
    requires first.typeName == typeName && second.typeName == typeName
    ensures m.ChildrenByType(b.id, typeName) == Ok([first, second])
  {
    var none: seq<Bucket> := [];
    assert b.items[..0] == [] && b.items[..2] == b.items;
    m.ResolveOneMore(b.items, 0, first);
    assert none + [first] == [first];
    m.ResolveOneMore(b.items, 1, second);
    assert [first] + [second] == [first, second];
    FilterSnoc(none, first, HasTypeName(typeName));
    FilterSnoc([first], second, HasTypeName(typeName));
  }

  /** The descent from the root to hosts yields both hosts in item order. */
  lemma RootDescendsToHosts()
    ensures Example.ChildrenByType(-1, "host") == Ok([Host2, Host3])
  {
    BucketsResolve();
    DescendTwo(Example, Root, Host2, Host3, "host");
  }

  /** Emitting with both hosts in the frontier keeps only the second host's devices. */
  lemma EmitOverHosts()
    ensures Example.Acyclic()
    ensures Exec(Example, EvalState([[]], [Host2, Host3], 1), Emit) ==
      Ok(EvalState([[Some(Osd2), Some(Osd3)]], [Host2, Host3], 1))
  {
    var st := EvalState([[]], [Host2, Host3], 1);
    ExampleIsAcyclic();
    HostsExpand();
    assert Host2.id == -2 && Host3.id == -3;
    EmitFillsLastGroup(Example, st);
    assert st.groups[0 := [Some(Osd2), Some(Osd3)]] == [[Some(Osd2), Some(Osd3)]];
  }

  /** Both hosts of the example can be walked. */
  lemma HostsExpand()
    requires Example.Acyclic()
    ensures Example.Expand(-2) == Ok([Some(Osd0), Some(Osd1)])
    ensures Example.Expand(-3) == Ok([Some(Osd2), Some(Osd3)])
  {
    BucketsResolve();
    DevicesResolve();
    HostExpands(Example, Host2, Osd0, Osd1);
    HostExpands(Example, Host3, Osd2, Osd3);
  }

  /**
   * The buckets-by-type lookup fails for a type name the map does not
   * define, instead of returning no buckets.
   */
  lemma UnknownTypeFails()
    ensures Example.BucketsByType("rack") == Err(NotFound)
  {
    assert forall i :: 0 <= i < |Example.types| ==> Example.types[i].name != "rack";
  }

  /**
   * Descending below a host fails: its items are devices, and every item
   * is looked up as a bucket.
   */
  lemma DeviceItemsFailDescent()
    ensures Example.ChildrenByType(-2, "osd") == Err(NotFound)
  {
    BucketsResolve();
    assert Example.BucketById(0).Err?;
    assert Host2.items[0] == 0;
    Example.ChildrenByTypeSucceeds(-2, "osd");
  }

  /** Taking a bucket after a run adds it to the frontier and opens an empty group. */
  lemma TakeThen(m: CrushMap, steps: seq<Step>, st: EvalState, b: Bucket)
    requires m.Acyclic() && Run(m, steps) == Ok(st) && m.BucketById(b.id) == Ok(b)
    ensures Run(m, steps + [Take(b.id)]) == Ok(EvalState(st.groups + [[]], st.frontier + [b], st.sgCount + 1))
  {
    RunSnoc(m, steps, Take(b.id));
  }

  /** Choosing after a run replaces the frontier with the descent below it. */
  lemma ChooseThen(m: CrushMap, steps: seq<Step>, st: EvalState, typeName: string, children: seq<Bucket>)
    requires m.Acyclic() && Run(m, steps) == Ok(st) && ChooseAll(m, st.frontier, typeName) == Ok(children)
    ensures Run(m, steps + [Choose(typeName)]) == Ok(st.(frontier := children))
  {
    RunSnoc(m, steps, Choose(typeName));
  }

  /** An emit with both hosts in the frontier and two groups open fills only the second. */
  lemma EmitIntoSecondGroup(first: DeviceEntries)
    ensures Example.Acyclic()
    ensures Exec(Example, EvalState([first, []], [Host2, Host3], 2), Emit) ==
      Ok(EvalState([first, [Some(Osd2), Some(Osd3)]], [Host2, Host3], 2))
  {
    var st := EvalState([first, []], [Host2, Host3], 2);
    ExampleIsAcyclic();
    HostsExpand();
    assert Host2.id == -2 && Host3.id == -3;
    EmitFillsLastGroup(Example, st);
    assert st.groups[1 := [Some(Osd2), Some(Osd3)]] == [first, [Some(Osd2), Some(Osd3)]];
  }

  /** An emit with host -2 as the only frontier bucket fills the one open group with its devices. */
  lemma EmitHost2()
    ensures Example.Acyclic()
    ensures Exec(Example, EvalState([[]], [Host2], 1), Emit) == Ok(EvalState([[Some(Osd0), Some(Osd1)]], [Host2], 1))
  {
    var st := EvalState([[]], [Host2], 1);
    ExampleIsAcyclic();
    HostsExpand();
    assert Host2.id == -2;
    EmitFillsLastGroup(Example, st);
    assert st.groups[0 := [Some(Osd0), Some(Osd1)]] == [[Some(Osd0), Some(Osd1)]];
  }

  /** A run that reaches `st`, followed by a step that takes `st` to `next`, reaches `next`. */
  lemma RunThen(m: CrushMap, steps: seq<Step>, st: EvalState, step: Step, next: EvalState)
    requires m.Acyclic() && Run(m, steps) == Ok(st) && Exec(m, st, step) == Ok(next)
    ensures Run(m, steps + [step]) == Ok(next)
  {
    RunSnoc(m, steps, step);
  }

  /** The state after `take -1`. */
  lemma TakeRoot()
    ensures Example.Acyclic()
    ensures Run(Example, [Take(-1)]) == Ok(EvalState([[]], [Root], 1))
  {
    ExampleIsAcyclic();
    BucketsResolve();
    var none: seq<Step> := [];
    TakeThen(Example, none, Start, Root);
    assert none + [Take(Root.id)] == [Take(-1)];
    var noGroups: StorageGroups := [];
    var noBuckets: seq<Bucket> := [];
    assert noGroups + [[]] == [[]] && noBuckets + [Root] == [Root];
  }

  /** Choosing hosts below a frontier holding only the root yields both hosts. */
  lemma HostsChosen()
    ensures ChooseAll(Example, [Root], "host") == Ok([Host2, Host3])
  {
    RootDescendsToHosts();
    ChooseFromOne(Example, Root, "host");
  }

  /** The state after `take -1`, `choose host`. */
  lemma ChooseHosts()
    ensures Example.Acyclic()
    ensures Run(Example, [Take(-1), Choose("host")]) == Ok(EvalState([[]], [Host2, Host3], 1))
  {
    TakeRoot();
    HostsChosen();
    ChooseThen(Example, [Take(-1)], EvalState([[]], [Root], 1), "host", [Host2, Host3]);
    assert [Take(-1)] + [Choose("host")] == [Take(-1), Choose("host")];
  }

  /** Choosing below a one-bucket frontier is the descent below that bucket. */
  lemma ChooseFromOne(m: CrushMap, b: Bucket, typeName: string)
    ensures ChooseAll(m, [b], typeName) == m.ChildrenByType(b.id, typeName)
  {
    assert [b][..0] == [];
    if m.ChildrenByType(b.id, typeName).Ok? {
      var none: seq<Bucket> := [];
      assert none + m.ChildrenByType(b.id, typeName).value == m.ChildrenByType(b.id, typeName).value;
    }
  }

  /**
   * take root, choose hosts, emit: the frontier holds both hosts, each
   * host's walk overwrites the one group, and only the last host's devices
   * remain.
   */
  lemma LastFrontierBucketWins(rule: Rule)
    requires rule.steps == [Take(-1), Choose("host"), Emit]
    ensures Example.Acyclic()
    ensures Evaluate(Example, rule) == Ok([[Some(Osd2), Some(Osd3)]])
  {
    ChooseHosts();
    EmitOverHosts();
    RunThen(Example, [Take(-1), Choose("host")], EvalState([[]], [Host2, Host3], 1), Emit,
      EvalState([[Some(Osd2), Some(Osd3)]], [Host2, Host3], 1));
    assert [Take(-1), Choose("host")] + [Emit] == rule.steps;
  }

  /** The state after `take -2`. */
  lemma TakeHost2()
    ensures Example.Acyclic()
    ensures Run(Example, [Take(-2)]) == Ok(EvalState([[]], [Host2], 1))
  {
    ExampleIsAcyclic();
    BucketsResolve();
    var none: seq<Step> := [];
    TakeThen(Example, none, Start, Host2);
    assert none + [Take(Host2.id)] == [Take(-2)];
    var noGroups: StorageGroups := [];
    var noBuckets: seq<Bucket> := [];
    assert noGroups + [[]] == [[]] && noBuckets + [Host2] == [Host2];
  }

  /** A second take after a run with one group open opens a second, empty group. */
  lemma TakeSecond(m: CrushMap, steps: seq<Step>, first: DeviceEntries, b1: Bucket, b2: Bucket)
    requires m.Acyclic() && Run(m, steps) == Ok(EvalState([first], [b1], 1)) && m.BucketById(b2.id) == Ok(b2)
    ensures Run(m, steps + [Take(b2.id)]) == Ok(EvalState([first, []], [b1, b2], 2))
  {
    TakeThen(m, steps, EvalState([first], [b1], 1), b2);
    assert [first] + [[]] == [first, []] && [b1] + [b2] == [b1, b2];
  }

  /** The state after `take -2`, `take -3`: two open groups, both hosts in the frontier. */
  lemma TakeBothHosts()
    ensures Example.Acyclic()
    ensures Run(Example, [Take(-2), Take(-3)]) == Ok(EvalState([[], []], [Host2, Host3], 2))
  {
    TakeHost2();
    BucketsResolve();
    TakeSecond(Example, [Take(-2)], [], Host2, Host3);
    assert [Take(-2)] + [Take(Host3.id)] == [Take(-2), Take(-3)];
  }

  /**
   * take -2, take -3, emit: two groups are opened but the one emit fills
   * only the second, with the walk of the last frontier bucket; the first
   * group stays empty.
   */
  lemma UnpairedTakeLeavesGroupEmpty(rule: Rule)
    requires rule.steps == [Take(-2), Take(-3), Emit]
    ensures Example.Acyclic()
    ensures Evaluate(Example, rule) == Ok([[], [Some(Osd2), Some(Osd3)]])
  {
    TakeBothHosts();
    EmitIntoSecondGroup([]);
    RunThen(Example, [Take(-2), Take(-3)], EvalState([[], []], [Host2, Host3], 2), Emit,
      EvalState([[], [Some(Osd2), Some(Osd3)]], [Host2, Host3], 2));
    assert [Take(-2), Take(-3)] + [Emit] == rule.steps;
  }

  /** The state after `take -2`, `emit`. */
  lemma FirstPair()
    ensures Example.Acyclic()
    ensures Run(Example, [Take(-2), Emit]) == Ok(EvalState([[Some(Osd0), Some(Osd1)]], [Host2], 1))
  {
    TakeHost2();
    EmitHost2();
    RunThen(Example, [Take(-2)], EvalState([[]], [Host2], 1), Emit, EvalState([[Some(Osd0), Some(Osd1)]], [Host2], 1));
    assert [Take(-2)] + [Emit] == [Take(-2), Emit];
  }

  /** The state after `take -2`, `emit`, `take -3`: the frontier still holds host -2. */
  lemma FirstPairThenTake()
    ensures Example.Acyclic()
    ensures Run(Example, [Take(-2), Emit, Take(-3)]) == Ok(EvalState([[Some(Osd0), Some(Osd1)], []], [Host2, Host3], 2))
  {
    FirstPair();
    BucketsResolve();
    TakeSecond(Example, [Take(-2), Emit], [Some(Osd0), Some(Osd1)], Host2, Host3);
    assert [Take(-2), Emit] + [Take(Host3.id)] == [Take(-2), Emit, Take(-3)];
  }

  /**
   * take -2, emit, take -3, emit: two take/emit pairs over disjoint hosts
   * give two groups with the devices of each host. The frontier is not
   * cleared, so the second emit walks both hosts and keeps the last.
   */
  lemma SequentialTakesStaySeparate(rule: Rule)
    requires rule.steps == [Take(-2), Emit, Take(-3), Emit]
    ensures Example.Acyclic()
    ensures Evaluate(Example, rule) == Ok([[Some(Osd0), Some(Osd1)], [Some(Osd2), Some(Osd3)]])
  {
    FirstPairThenTake();
    var first := [Some(Osd0), Some(Osd1)];
    EmitIntoSecondGroup(first);
    RunThen(Example, [Take(-2), Emit, Take(-3)], EvalState([first, []], [Host2, Host3], 2), Emit,
      EvalState([first, [Some(Osd2), Some(Osd3)]], [Host2, Host3], 2));
    assert [Take(-2), Emit, Take(-3)] + [Emit] == rule.steps;
  }
}
