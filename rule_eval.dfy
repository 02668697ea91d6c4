/**
 * The rule interpreter: runs the steps of one rule over a crush map. Its
 * state is a frontier of buckets, the storage groups opened so far and the
 * number of `take` steps seen; `take` opens a group and adds a bucket to the
 * frontier, a choose step replaces the frontier with the next level down,
 * and `emit` writes the devices below the frontier into the newest group.
 */
module RuleEval {
  import opened Wrappers
  import opened CrushMaps

  /** One device list per `take` step, in the order of the takes. */
  type StorageGroups = seq<DeviceEntries>

  /** The interpreter's variables between two steps. */
  datatype EvalState = EvalState(groups: StorageGroups, frontier: seq<Bucket>, sgCount: nat)
  {
    /** The take counter always equals the number of groups opened. */
    ghost predicate Valid() {
      |groups| == sgCount
    }
  }

  /** Nothing taken, nothing emitted. */
  const Start := EvalState([], [], 0)

  /** The number of `take` steps in `steps`. */
  function CountTakes(steps: seq<Step>): nat {
    if steps == [] then 0
    else CountTakes(steps[..|steps| - 1]) + (if steps[|steps| - 1].Take? then 1 else 0)
  }

  /**
   * A choose step's new frontier: the children of type `typeName` of every
   * frontier bucket, concatenated in frontier order.
   */
  ghost function ChooseAll(m: CrushMap, frontier: seq<Bucket>, typeName: string): (r: Result<seq<Bucket>, Error>)
    ensures r.Err? ==> r.error == NotFound
  {
    if frontier == [] then Ok([])
    else
      match ChooseAll(m, frontier[..|frontier| - 1], typeName)
      case Err(e) => Err(e)
      case Ok(prefix) =>
        match m.ChildrenByType(frontier[|frontier| - 1].id, typeName)
        case Err(e) => Err(e)
        case Ok(children) => Ok(prefix + children)
  }

  /**
   * An emit step after handling the first `j` frontier buckets: each one's
   * walk is written over the newest group in turn.
   */
  ghost function EmitFrom(m: CrushMap, st: EvalState, j: nat): (r: Result<EvalState, Error>)
    requires m.Acyclic() && st.Valid() && 0 < st.sgCount && j <= |st.frontier|
    ensures r.Ok? ==> r.value.Valid() && r.value.sgCount == st.sgCount && r.value.frontier == st.frontier
    ensures r.Err? ==> r.error == NotFound
  {
    if j == 0 then Ok(st)
    else
      match EmitFrom(m, st, j - 1)
      case Err(e) => Err(e)
      case Ok(s) =>
        match m.Expand(st.frontier[j - 1].id)
        case Err(e) => Err(e)
        case Ok(devices) => Ok(s.(groups := s.groups[st.sgCount - 1 := devices]))
  }

  /** The effect of one step. */
  ghost function Exec(m: CrushMap, st: EvalState, step: Step): (r: Result<EvalState, Error>)
    requires m.Acyclic() && st.Valid()
    ensures r.Ok? ==> r.value.Valid()
  {
    match step
    case Take(item) =>
      (match m.BucketById(item)
       case Err(e) => Err(e)
       case Ok(b) => Ok(EvalState(st.groups + [[]], st.frontier + [b], st.sgCount + 1)))
    case Choose(typeName) =>
      (match ChooseAll(m, st.frontier, typeName)
       case Err(e) => Err(e)
       case Ok(children) => Ok(st.(frontier := children)))
    case Emit =>
      if st.sgCount == 0 then Err(InvalidRuleFormat)
      else EmitFrom(m, st, |st.frontier|)
    case Other(_) => Ok(st)
  }

  /** The state after running `steps` from the start; the first failure ends the run. */
  ghost function Run(m: CrushMap, steps: seq<Step>): (r: Result<EvalState, Error>)
    requires m.Acyclic()
    ensures r.Ok? ==> r.value.Valid()
  {
    if steps == [] then Ok(Start)
    else
      match Run(m, steps[..|steps| - 1])
      case Err(e) => Err(e)
      case Ok(st) => Exec(m, st, steps[|steps| - 1])
  }

  /** The storage groups of a rule, one per `take` step. */
  ghost function Evaluate(m: CrushMap, rule: Rule): (r: Result<StorageGroups, Error>)
    requires m.Acyclic()
    ensures r.Ok? ==> |r.value| == CountTakes(rule.steps)
  {
    GroupCountIsTakeCount(m, rule.steps);
    match Run(m, rule.steps)
    case Err(e) => Err(e)
    case Ok(st) => Ok(st.groups)
  }

  /** Runs the steps of `rule` in order and returns its storage groups. */
  method GetStorageGroupsByRule(m: CrushMap, rule: Rule) returns (r: Result<StorageGroups, Error>)
    requires m.Acyclic()
    ensures r == Evaluate(m, rule)
  {
    var storageGroups: StorageGroups := [];
    var buckets: seq<Bucket> := [];
    var sgCount: nat := 0;
    for i := 0 to |rule.steps|
      invariant Run(m, rule.steps[..i]) == Ok(EvalState(storageGroups, buckets, sgCount))
    {
      ghost var before := EvalState(storageGroups, buckets, sgCount);
      RunOneMore(m, rule.steps, i);
      match rule.steps[i]
      case Take(item) =>
        sgCount := sgCount + 1;
        storageGroups := storageGroups + [[]];
        var taken := m.BucketById(item);
        if taken.Err? {
          FailedStepFailsRule(m, rule, i);
          return Err(taken.error);
        }
        buckets := buckets + [taken.value];
      case Choose(typeName) =>
        var children := DescendFrontier(m, buckets, typeName);
        if children.Err? {
          FailedStepFailsRule(m, rule, i);
          return Err(children.error);
        }
        buckets := children.value;
      case Emit =>
        if sgCount == 0 {
          FailedStepFailsRule(m, rule, i);
          return Err(InvalidRuleFormat);
        }
        var emitted := EmitFrontier(m, storageGroups, buckets, sgCount);
        if emitted.Err? {
          FailedStepFailsRule(m, rule, i);
          return Err(emitted.error);
        }
        storageGroups := emitted.value;
      case Other(_) =>
    }
    assert rule.steps[..|rule.steps|] == rule.steps;
    return Ok(storageGroups);
  }

  /** The body of a choose step: the children of every frontier bucket, appended in order. */
  method DescendFrontier(m: CrushMap, buckets: seq<Bucket>, typeName: string) returns (r: Result<seq<Bucket>, Error>)
    ensures r == ChooseAll(m, buckets, typeName)
  {
    var children: seq<Bucket> := [];
    for j := 0 to |buckets|
      invariant ChooseAll(m, buckets[..j], typeName) == Ok(children)
    {
      assert buckets[..j + 1][..j] == buckets[..j];
      var tempBuckets := m.GetChildrenByType(buckets[j].id, typeName);
      if tempBuckets.Err? {
        ChooseAllSucceeds(m, buckets, typeName);
        return Err(tempBuckets.error);
      }
      children := children + tempBuckets.value;
    }
    assert buckets[..|buckets|] == buckets;
    return Ok(children);
  }

  /**
   * The body of an emit step once a take has been seen: each frontier
   * bucket's walk, into a fresh list, is stored in the newest group.
   */
  method EmitFrontier(m: CrushMap, storageGroups: StorageGroups, buckets: seq<Bucket>, sgCount: nat)
    returns (r: Result<StorageGroups, Error>)
    requires m.Acyclic() && |storageGroups| == sgCount && 0 < sgCount
    ensures r == match EmitFrom(m, EvalState(storageGroups, buckets, sgCount), |buckets|)
                 case Ok(st) => Ok(st.groups)
                 case Err(e) => Err(e)
  {
    ghost var start := EvalState(storageGroups, buckets, sgCount);
    var groups := storageGroups;
    for j := 0 to |buckets|
      invariant EmitFrom(m, start, j) == Ok(EvalState(groups, buckets, sgCount))
    {
      var devices := new DeviceList();
      var found := m.GetAllOsdsByBucket(buckets[j].id, devices);
      if found.Err? {
        EmitFailureSticks(m, start, j + 1, |buckets|);
        return Err(found.error);
      }
      assert found.value.entries == [] + m.Expand(buckets[j].id).value == m.Expand(buckets[j].id).value;
      groups := groups[sgCount - 1 := found.value.entries];
    }
    return Ok(groups);
  }

  /** Running one more step of `steps` after its first `i`. */
  lemma RunOneMore(m: CrushMap, steps: seq<Step>, i: nat)
    requires m.Acyclic() && i < |steps| && Run(m, steps[..i]).Ok?
    ensures Run(m, steps[..i + 1]) == Exec(m, Run(m, steps[..i]).value, steps[i])
  {
    assert steps[..i + 1][..i] == steps[..i];
  }

  /** Running `steps` and then one more step. */
  lemma RunSnoc(m: CrushMap, steps: seq<Step>, step: Step)
    requires m.Acyclic()
    ensures Run(m, steps).Err? ==> Run(m, steps + [step]) == Run(m, steps)
    ensures Run(m, steps).Ok? ==> Run(m, steps + [step]) == Exec(m, Run(m, steps).value, step)
  {
    assert (steps + [step])[..|steps|] == steps;
  }

  /** A step that fails makes the whole rule fail with its error. */
  lemma FailedStepFailsRule(m: CrushMap, rule: Rule, i: nat)
    requires m.Acyclic() && i < |rule.steps| && Run(m, rule.steps[..i + 1]).Err?
    ensures Evaluate(m, rule) == Err(Run(m, rule.steps[..i + 1]).error)
  {
    RunFailureSticks(m, rule.steps, i + 1, |rule.steps|);
    assert rule.steps[..|rule.steps|] == rule.steps;
  }

  /** A failed prefix of a run makes every longer prefix fail the same way. */
  lemma {:induction false} RunFailureSticks(m: CrushMap, steps: seq<Step>, i: nat, k: nat)
    requires m.Acyclic() && i <= k <= |steps|
    requires Run(m, steps[..i]).Err?
    ensures Run(m, steps[..k]) == Run(m, steps[..i])
    decreases k
  {
    if i < k {
      RunFailureSticks(m, steps, i, k - 1);
      assert steps[..k][..k - 1] == steps[..k - 1];
    }
  }

  /** A failed walk part-way through an emit makes the whole emit fail. */
  lemma {:induction false} EmitFailureSticks(m: CrushMap, st: EvalState, i: nat, k: nat)
    requires m.Acyclic() && st.Valid() && 0 < st.sgCount && i <= k <= |st.frontier|
    requires EmitFrom(m, st, i).Err?
    ensures EmitFrom(m, st, k).Err?
    decreases k
  {
    if i < k {
      EmitFailureSticks(m, st, i, k - 1);
    }
  }

  /** A successful run has opened exactly one group per `take` step. */
  lemma {:induction false} GroupCountIsTakeCount(m: CrushMap, steps: seq<Step>)
    requires m.Acyclic()
    ensures Run(m, steps).Ok? ==> Run(m, steps).value.sgCount == CountTakes(steps) == |Run(m, steps).value.groups|
  {
    if steps != [] {
      GroupCountIsTakeCount(m, steps[..|steps| - 1]);
    }
  }

  /**
   * `take` opens a new, empty group after the existing ones and adds the
   * taken bucket to the end of the frontier; an unknown bucket id fails.
   */
  lemma TakeOpensGroup(m: CrushMap, st: EvalState, item: int)
    requires m.Acyclic() && st.Valid()
    ensures Exec(m, st, Take(item)).Ok? <==> m.BucketById(item).Ok?
    ensures Exec(m, st, Take(item)).Ok? ==>
      var next := Exec(m, st, Take(item)).value;
      next.sgCount == st.sgCount + 1 && next.groups[..st.sgCount] == st.groups && next.groups[st.sgCount] == [] &&
      next.frontier == st.frontier + [m.BucketById(item).value]
  {
    if m.BucketById(item).Ok? {
      var next := Exec(m, st, Take(item)).value;
      assert next.groups[..st.sgCount] == st.groups;
    }
  }

  /**
   * A choose step leaves the groups alone and replaces the frontier with
   * buckets of the chosen type; it fails when some frontier bucket has an
   * item that is not a bucket.
   */
  lemma ChooseDescends(m: CrushMap, st: EvalState, typeName: string)
    requires m.Acyclic() && st.Valid()
    ensures Exec(m, st, Choose(typeName)).Ok? <==>
      forall i :: 0 <= i < |st.frontier| ==> m.ChildrenByType(st.frontier[i].id, typeName).Ok?
    ensures Exec(m, st, Choose(typeName)).Ok? ==>
      var next := Exec(m, st, Choose(typeName)).value;
      next.groups == st.groups && next.sgCount == st.sgCount &&
      forall c :: c in next.frontier ==> c.typeName == typeName && c in m.buckets
  {
    ChooseAllSucceeds(m, st.frontier, typeName);
    ChooseAllTyped(m, st.frontier, typeName);
  }

  /** Every bucket a choose step yields has the chosen type name and is a loaded bucket. */
  lemma {:induction false} ChooseAllTyped(m: CrushMap, frontier: seq<Bucket>, typeName: string)
    ensures ChooseAll(m, frontier, typeName).Ok? ==>
      forall c :: c in ChooseAll(m, frontier, typeName).value ==> c.typeName == typeName && c in m.buckets
  {
    if frontier != [] && ChooseAll(m, frontier, typeName).Ok? {
      var init := frontier[..|frontier| - 1];
      var last := frontier[|frontier| - 1];
      ChooseAllTyped(m, init, typeName);
      m.ChildrenAreTypedItems(last.id, typeName);
      assert ChooseAll(m, frontier, typeName).value ==
        ChooseAll(m, init, typeName).value + m.ChildrenByType(last.id, typeName).value;
    }
  }

  /** The descent of a frontier succeeds exactly when the descent below each of its buckets does. */
  lemma {:induction false} ChooseAllSucceeds(m: CrushMap, frontier: seq<Bucket>, typeName: string)
    ensures ChooseAll(m, frontier, typeName).Ok? <==>
      forall i :: 0 <= i < |frontier| ==> m.ChildrenByType(frontier[i].id, typeName).Ok?
  {
    if frontier != [] {
      var init := frontier[..|frontier| - 1];
      var last := frontier[|frontier| - 1];
      ChooseAllSucceeds(m, init, typeName);
      assert frontier == init + [last];
      if ChooseAll(m, frontier, typeName).Ok? {
        assert ChooseAll(m, init, typeName).Ok? && m.ChildrenByType(last.id, typeName).Ok?;
      } else if ChooseAll(m, init, typeName).Ok? {
        assert m.ChildrenByType(last.id, typeName).Err?;
      } else {
        var i :| 0 <= i < |init| && m.ChildrenByType(init[i].id, typeName).Err?;
        assert frontier[i] == init[i];
      }
    }
  }

  /**
   * Each frontier bucket's walk overwrites the same slot, so after the
   * first `j` of them the newest group holds the walk of bucket `j - 1`.
   */
  lemma {:induction false} EmitFromLastWins(m: CrushMap, st: EvalState, j: nat)
    requires m.Acyclic() && st.Valid() && 0 < st.sgCount && j <= |st.frontier|
    ensures EmitFrom(m, st, j).Ok? <==> forall i :: 0 <= i < j ==> m.Expand(st.frontier[i].id).Ok?
    ensures EmitFrom(m, st, j).Ok? ==>
      EmitFrom(m, st, j).value ==
        if j == 0 then st
        else st.(groups := st.groups[st.sgCount - 1 := m.Expand(st.frontier[j - 1].id).value])
  {
    if j > 0 {
      EmitFromLastWins(m, st, j - 1);
    }
  }

  /**
   * `emit` with no `take` before it fails as a malformed rule. Otherwise
   * it fails if any frontier bucket cannot be walked; when it succeeds,
   * only the newest group changes, and it becomes the walk of the last
   * frontier bucket (or stays as it was if the frontier is empty). The
   * frontier is not cleared.
   */
  lemma EmitFillsLastGroup(m: CrushMap, st: EvalState)
    requires m.Acyclic() && st.Valid()
    ensures st.sgCount == 0 ==> Exec(m, st, Emit) == Err(InvalidRuleFormat)
    ensures 0 < st.sgCount ==>
      (Exec(m, st, Emit).Ok? <==> forall i :: 0 <= i < |st.frontier| ==> m.Expand(st.frontier[i].id).Ok?)
    ensures Exec(m, st, Emit).Ok? ==>
      Exec(m, st, Emit).value ==
        if st.frontier == [] then st
        else st.(groups := st.groups[st.sgCount - 1 := m.Expand(st.frontier[|st.frontier| - 1].id).value])
  {
    if 0 < st.sgCount {
      EmitFromLastWins(m, st, |st.frontier|);
    }
  }

  /** A rule whose first `emit` comes before any `take` fails as malformed. */
  lemma {:induction false} EmitBeforeTakeFails(m: CrushMap, steps: seq<Step>, i: nat)
    requires m.Acyclic() && i < |steps| && steps[i] == Emit
    requires forall j :: 0 <= j < i ==> !steps[j].Take?
    ensures Run(m, steps) == Err(InvalidRuleFormat)
  {
    NoTakeKeepsStart(m, steps, i);
    assert steps[..i + 1][..i] == steps[..i];
    RunFailureSticks(m, steps, i + 1, |steps|);
    assert steps[..|steps|] == steps;
  }

  /** Before the first `take`, a run is still at the start or has already failed as malformed. */
  lemma {:induction false} NoTakeKeepsStart(m: CrushMap, steps: seq<Step>, i: nat)
    requires m.Acyclic() && i <= |steps|
    requires forall j :: 0 <= j < i ==> !steps[j].Take?
    ensures Run(m, steps[..i]) == Ok(Start) || Run(m, steps[..i]) == Err(InvalidRuleFormat)
  {
    if i > 0 {
      NoTakeKeepsStart(m, steps, i - 1);
      assert steps[..i][..i - 1] == steps[..i - 1];
    }
  }

  /**
   * Once a later `take` has opened a newer group, an earlier group is never
   * written again: running more steps keeps every group but the newest.
   */
  lemma {:induction false} EarlierGroupsFrozen(m: CrushMap, before: seq<Step>, after: seq<Step>)
    requires m.Acyclic() && Run(m, before).Ok? && Run(m, before + after).Ok?
    ensures Run(m, before).value.sgCount <= Run(m, before + after).value.sgCount
    ensures forall i :: 0 <= i < Run(m, before).value.sgCount - 1 ==>
      Run(m, before + after).value.groups[i] == Run(m, before).value.groups[i]
    decreases |after|
  {
    if after == [] {
      assert before + after == before;
    } else {
      var init := after[..|after| - 1];
      assert (before + after)[..|before + after| - 1] == before + init;
      assert (before + after)[|before + after| - 1] == after[|after| - 1];
      EarlierGroupsFrozen(m, before, init);
      var mid := Run(m, before + init).value;
      StepKeepsOlderGroups(m, mid, after[|after| - 1]);
    }
  }

  /** One step never lowers the take counter and never writes a group older than the newest. */
  lemma StepKeepsOlderGroups(m: CrushMap, st: EvalState, step: Step)
    requires m.Acyclic() && st.Valid() && Exec(m, st, step).Ok?
    ensures st.sgCount <= Exec(m, st, step).value.sgCount
    ensures forall i :: 0 <= i < st.sgCount - 1 ==> Exec(m, st, step).value.groups[i] == st.groups[i]
  {
    if step.Emit? {
      EmitFillsLastGroup(m, st);
    }
  }

  /**
   * A second `emit` straight after an `emit` changes nothing, because the
   * frontier is left in place and the same slot is written again.
   */
  lemma EmitIsIdempotent(m: CrushMap, steps: seq<Step>)
    requires m.Acyclic() && Run(m, steps + [Emit]).Ok?
    ensures Run(m, steps + [Emit, Emit]) == Run(m, steps + [Emit])
  {
    assert (steps + [Emit])[..|steps|] == steps;
    assert (steps + [Emit, Emit])[..|steps| + 1] == steps + [Emit];
    var st := Run(m, steps).value;
    assert Run(m, steps + [Emit]) == Exec(m, st, Emit);
    EmitFillsLastGroup(m, st);
    var once := Run(m, steps + [Emit]).value;
    assert Run(m, steps + [Emit, Emit]) == Exec(m, once, Emit);
    assert once.frontier == st.frontier && once.sgCount == st.sgCount && 0 < st.sgCount;
    EmitFillsLastGroup(m, once);
    assert Exec(m, once, Emit).Ok?;
    if st.frontier != [] {
      assert once.groups[st.sgCount - 1] == m.Expand(st.frontier[|st.frontier| - 1].id).value;
      assert Exec(m, once, Emit).value.groups == once.groups;
    }
  }

  /** Steps with an op the interpreter does not know can be removed without changing the result. */
  lemma {:induction false} OtherStepsIgnored(m: CrushMap, before: seq<Step>, op: string, after: seq<Step>)
    requires m.Acyclic()
    ensures Run(m, before + [Other(op)] + after) == Run(m, before + after)
    decreases |after|
  {
    if after == [] {
      assert before + [Other(op)] + after == before + [Other(op)];
      assert before + after == before;
      RunSnoc(m, before, Other(op));
    } else {
      var init := after[..|after| - 1];
      var last := after[|after| - 1];
      OtherStepsIgnored(m, before, op, init);
      assert before + [Other(op)] + after == (before + [Other(op)] + init) + [last];
      assert before + after == (before + init) + [last];
      RunSnoc(m, before + [Other(op)] + init, last);
      RunSnoc(m, before + init, last);
    }
  }

  /** Every device a successful run puts in a group is a loaded device. */
  lemma {:induction false} GroupsHoldLoadedDevices(m: CrushMap, steps: seq<Step>)
    requires m.Acyclic() && Run(m, steps).Ok?
    ensures forall g, k ::
              0 <= g < |Run(m, steps).value.groups| && 0 <= k < |Run(m, steps).value.groups[g]| &&
              Run(m, steps).value.groups[g][k].Some? ==>
                Run(m, steps).value.groups[g][k].value in m.devices
  {
    if steps != [] {
      var init := steps[..|steps| - 1];
      GroupsHoldLoadedDevices(m, init);
      var st := Run(m, init).value;
      var last := steps[|steps| - 1];
      if last.Emit? {
        EmitFillsLastGroup(m, st);
        if st.frontier != [] {
          m.ExpandYieldsDevices(st.frontier[|st.frontier| - 1].id);
        }
      }
    }
  }
}
