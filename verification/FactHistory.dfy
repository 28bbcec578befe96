/** What every history reachable by extractions satisfies: the supersession links, the
    refinement of a plain slot map, and monotonicity. */
module FactHistory {
  import opened Wrappers
  import opened Texts
  import opened Facts

  // ----- Supersession links -----

  /** Facts are listed in the order of the extraction and of the operation they come from. */
  predicate Precedes(a: FactId, b: FactId) {
    a.sourceSequence < b.sourceSequence || (a.sourceSequence == b.sourceSequence && a.opIndex < b.opIndex)
  }

  predicate IdFits(f: Fact) {
    f.id.slotKey == f.slotKey && f.id.sourceSequence == f.sourceSequence
    && f.id.tenant == f.tenant && f.id.conversation == f.conversation
  }

  /** Every fact was made before operation `index` of the extraction of message `sequence`. */
  ghost predicate Ordered(facts: seq<Fact>, sequence: nat, index: nat) {
    && (forall i :: 0 <= i < |facts| ==> IdFits(facts[i]))
    && (forall i, j :: 0 <= i < j < |facts| ==> Precedes(facts[i].id, facts[j].id))
    && (forall i :: 0 <= i < |facts| ==>
          facts[i].sourceSequence < sequence || (facts[i].sourceSequence == sequence && facts[i].id.opIndex < index))
  }

  ghost predicate OneActivePerSlot(facts: seq<Fact>) {
    forall i, j :: 0 <= i < j < |facts| && facts[i].status.Active? && facts[j].status.Active?
      ==> facts[i].slotKey != facts[j].slotKey
  }

  ghost predicate DistinctIds(facts: seq<Fact>) {
    forall i, j :: 0 <= i < j < |facts| ==> facts[i].id != facts[j].id
  }

  /** `facts[j]` is the successor that `facts[i]` names. */
  predicate Succeeds(facts: seq<Fact>, i: nat, j: nat)
    requires i < |facts| && j < |facts|
  {
    facts[i].supersededBy == Some(facts[j].id)
  }

  ghost predicate HasSuccessor(facts: seq<Fact>, i: nat)
    requires i < |facts|
  {
    exists j :: i < j < |facts| && Succeeds(facts, i, j)
  }

  ghost predicate HasPredecessor(facts: seq<Fact>, j: nat)
    requires j < |facts|
  {
    exists i :: 0 <= i < j && Succeeds(facts, i, j)
  }

  /** Both directions of every link are present, point forwards, and stay in one slot. */
  ghost predicate LinksMatch(facts: seq<Fact>) {
    && (forall i :: 0 <= i < |facts| ==> (facts[i].supersededBy.Some? <==> facts[i].status.Superseded?))
    && (forall i {:trigger HasSuccessor(facts, i)} :: 0 <= i < |facts| && facts[i].supersededBy.Some? ==>
          HasSuccessor(facts, i))
    && (forall j {:trigger HasPredecessor(facts, j)} :: 0 <= j < |facts| && facts[j].supersedes.Some? ==>
          HasPredecessor(facts, j))
    && (forall i, j {:trigger Succeeds(facts, i, j)} :: 0 <= i < |facts| && 0 <= j < |facts| ==>
          (Succeeds(facts, i, j) <==> facts[j].supersedes == Some(facts[i].id)))
    && (forall i, j {:trigger Succeeds(facts, i, j)} ::
          0 <= i < |facts| && 0 <= j < |facts| && Succeeds(facts, i, j) ==>
          i < j && facts[i].slotKey == facts[j].slotKey)
  }

  ghost predicate Sound(facts: seq<Fact>) {
    OneActivePerSlot(facts) && DistinctIds(facts) && LinksMatch(facts)
  }

  lemma StepKeepsOrder(n: Normalizers, x: Stamp, h: History, op: Operation, index: nat)
    requires Ordered(h.facts, x.sourceSequence, index)
    ensures Ordered(Step(n, x, h, op, index).facts, x.sourceSequence, index + 1)
  {
  }

  lemma OrderGivesDistinctIds(facts: seq<Fact>, sequence: nat, index: nat)
    requires Ordered(facts, sequence, index)
    ensures DistinctIds(facts)
  {
  }

  lemma StepKeepsOneActive(n: Normalizers, x: Stamp, h: History, op: Operation, index: nat)
    requires OneActivePerSlot(h.facts)
    ensures OneActivePerSlot(Step(n, x, h, op, index).facts)
  {
  }

  /** Changing anything but the links leaves them matched. */
  lemma RelabelKeepsLinks(facts: seq<Fact>, i: nat, f: Fact)
    requires i < |facts| && LinksMatch(facts)
    requires f.id == facts[i].id && f.slotKey == facts[i].slotKey
    requires f.supersedes == facts[i].supersedes && f.supersededBy == facts[i].supersededBy
    requires f.status.Superseded? <==> facts[i].status.Superseded?
    ensures LinksMatch(facts[i := f])
  {
    var g := facts[i := f];
    assert forall a, b :: 0 <= a < |g| && 0 <= b < |g| ==> (Succeeds(g, a, b) <==> Succeeds(facts, a, b));
    forall a | 0 <= a < |g| && g[a].supersededBy.Some?
      ensures HasSuccessor(g, a)
    {
      assert HasSuccessor(facts, a);
      var b :| a < b < |facts| && Succeeds(facts, a, b);
      assert Succeeds(g, a, b);
    }
    forall b | 0 <= b < |g| && g[b].supersedes.Some?
      ensures HasPredecessor(g, b)
    {
      assert HasPredecessor(facts, b);
      var a :| 0 <= a < b && Succeeds(facts, a, b);
      assert Succeeds(g, a, b);
    }
  }

  /** An active fact is superseded by an appended one with an identity of its own. */
  lemma SupersedeKeepsLinks(facts: seq<Fact>, i: nat, last: Fact)
    requires i < |facts| && LinksMatch(facts) && DistinctIds(facts)
    requires facts[i].status.Active? && last.status.Active?
    requires last.supersedes == Some(facts[i].id) && last.supersededBy.None? && last.slotKey == facts[i].slotKey
    requires forall k :: 0 <= k < |facts| ==> facts[k].id != last.id
    ensures LinksMatch(facts[i := facts[i].(status := Superseded, supersededBy := Some(last.id))] + [last])
  {
    var g := facts[i := facts[i].(status := Superseded, supersededBy := Some(last.id))] + [last];
    var m := |facts|;
    forall a | 0 <= a < m && facts[a].supersededBy.Some?
      ensures facts[a].supersededBy != Some(last.id)
    {
      assert HasSuccessor(facts, a);
      var b :| a < b < |facts| && Succeeds(facts, a, b);
    }
    forall b | 0 <= b < m
      ensures facts[b].supersedes != Some(last.id)
      ensures facts[b].supersedes != Some(facts[i].id)
    {
      if facts[b].supersedes.Some? {
        assert HasPredecessor(facts, b);
        var a :| 0 <= a < b && Succeeds(facts, a, b);
        assert facts[b].supersedes == Some(facts[a].id);
        assert Succeeds(facts, i, b) <==> facts[b].supersedes == Some(facts[i].id);
      }
    }
    forall a, b | 0 <= a <= m && 0 <= b <= m
      ensures Succeeds(g, a, b) <==> (a == i && b == m) || (a < m && b < m && a != i && Succeeds(facts, a, b))
      ensures Succeeds(g, a, b) <==> g[b].supersedes == Some(g[a].id)
    {
      if a < m && b < m && a != i {
        assert Succeeds(g, a, b) <==> Succeeds(facts, a, b);
      }
    }
    forall a | 0 <= a <= m && g[a].supersededBy.Some?
      ensures HasSuccessor(g, a)
    {
      if a == i {
        assert Succeeds(g, i, m);
      } else {
        assert HasSuccessor(facts, a);
        var b :| a < b < |facts| && Succeeds(facts, a, b);
        assert Succeeds(g, a, b);
      }
    }
    forall b | 0 <= b <= m && g[b].supersedes.Some?
      ensures HasPredecessor(g, b)
    {
      if b == m {
        assert Succeeds(g, i, m);
      } else {
        assert HasPredecessor(facts, b);
        var a :| 0 <= a < b && Succeeds(facts, a, b);
        assert Succeeds(g, a, b);
      }
    }
  }

  lemma AppendKeepsLinks(facts: seq<Fact>, last: Fact)
    requires LinksMatch(facts)
    requires last.status.Active? && last.supersedes.None? && last.supersededBy.None?
    requires forall k :: 0 <= k < |facts| ==> facts[k].id != last.id
    ensures LinksMatch(facts + [last])
  {
    var g := facts + [last];
    var m := |facts|;
    forall a | 0 <= a < m && facts[a].supersededBy.Some?
      ensures facts[a].supersededBy != Some(last.id)
    {
      assert HasSuccessor(facts, a);
      var b :| a < b < |facts| && Succeeds(facts, a, b);
    }
    forall b | 0 <= b < m && facts[b].supersedes.Some?
      ensures facts[b].supersedes != Some(last.id)
    {
      assert HasPredecessor(facts, b);
      var a :| 0 <= a < b && Succeeds(facts, a, b);
      assert facts[b].supersedes == Some(facts[a].id);
    }
    forall a, b | 0 <= a <= m && 0 <= b <= m
      ensures Succeeds(g, a, b) <==> a < m && b < m && Succeeds(facts, a, b)
    {
    }
    forall a | 0 <= a <= m && g[a].supersededBy.Some?
      ensures HasSuccessor(g, a)
    {
      assert HasSuccessor(facts, a);
      var b :| a < b < |facts| && Succeeds(facts, a, b);
      assert Succeeds(g, a, b);
    }
    forall b | 0 <= b <= m && g[b].supersedes.Some?
      ensures HasPredecessor(g, b)
    {
      assert HasPredecessor(facts, b);
      var a :| 0 <= a < b && Succeeds(facts, a, b);
      assert Succeeds(g, a, b);
    }
  }

  lemma StepKeepsLinks(n: Normalizers, x: Stamp, h: History, op: Operation, index: nat)
    requires Ordered(h.facts, x.sourceSequence, index) && LinksMatch(h.facts)
    ensures LinksMatch(Step(n, x, h, op, index).facts)
  {
    var active := ActiveIndex(h.facts, op.slotKey);
    if op.Assert? && active.None? {
      AppendKeepsLinks(h.facts, NewFact(x, op, index, None));
    } else if op.Assert? && n.dedupKey(h.facts[active.value].value) != n.dedupKey(op.value) {
      OrderGivesDistinctIds(h.facts, x.sourceSequence, index);
      SupersedeKeepsLinks(h.facts, active.value, NewFact(x, op, index, Some(h.facts[active.value].id)));
    } else if active.Some? {
      RelabelKeepsLinks(h.facts, active.value, Step(n, x, h, op, index).facts[active.value]);
    }
  }

  lemma {:induction false} StepsKeepSound(n: Normalizers, x: Stamp, h: History, ops: seq<Operation>)
    requires Ordered(h.facts, x.sourceSequence, 0) && Sound(h.facts)
    ensures var after := Steps(n, x, h, ops).facts;
            Ordered(after, x.sourceSequence, |ops|) && Sound(after)
  {
    if ops != [] {
      var index := |ops| - 1;
      var before := Steps(n, x, h, ops[..index]);
      StepsKeepSound(n, x, h, ops[..index]);
      StepKeepsOrder(n, x, before, ops[index], index);
      OrderGivesDistinctIds(Steps(n, x, h, ops).facts, x.sourceSequence, |ops|);
      StepKeepsOneActive(n, x, before, ops[index], index);
      StepKeepsLinks(n, x, before, ops[index], index);
    }
  }

  // ----- The active view refines a map from slots to values -----

  /** `m` is exactly the active slots with their values. */
  ghost predicate Shows(facts: seq<Fact>, m: map<Text, Text>) {
    && (forall i :: 0 <= i < |facts| && facts[i].status.Active? ==>
          facts[i].slotKey in m && m[facts[i].slotKey] == facts[i].value)
    && (forall slot :: slot in m ==> ActiveIndex(facts, slot).Some?)
  }

  function MapStep(n: Normalizers, m: map<Text, Text>, op: Operation): map<Text, Text> {
    match op
    case Retract(slot, _, _) => m - {slot}
    case Assert(slot, value, _, _) =>
      if slot in m && n.dedupKey(m[slot]) == n.dedupKey(value) then m else m[slot := value]
  }

  function MapSteps(n: Normalizers, m: map<Text, Text>, ops: seq<Operation>): map<Text, Text> {
    if ops == [] then m else MapStep(n, MapSteps(n, m, ops[..|ops| - 1]), ops[|ops| - 1])
  }

  /** Only the retraction of a slot that the map lacks is put on record. */
  function MapAudit(x: Stamp, m: map<Text, Text>, op: Operation, index: nat): seq<Audit> {
    if op.Retract? && op.slotKey !in m then [RetractWithoutActiveFact(op, x.sourceSequence, index)] else []
  }

  function MapAudits(n: Normalizers, x: Stamp, m: map<Text, Text>, ops: seq<Operation>): seq<Audit> {
    if ops == [] then []
    else
      var front := ops[..|ops| - 1];
      MapAudits(n, x, m, front) + MapAudit(x, MapSteps(n, m, front), ops[|ops| - 1], |front|)
  }

  /** The slot the operation names is active before the step exactly when the map holds it. */
  lemma SameSlot(facts: seq<Fact>, m: map<Text, Text>, slot: Text)
    requires Shows(facts, m)
    ensures ActiveIndex(facts, slot).Some? <==> slot in m
    ensures slot in m ==> m[slot] == facts[ActiveIndex(facts, slot).value].value
  {
    var active := ActiveIndex(facts, slot);
  }

  lemma StepValues(n: Normalizers, x: Stamp, h: History, op: Operation, index: nat, m: map<Text, Text>, i: nat)
    requires OneActivePerSlot(h.facts) && Shows(h.facts, m)
    requires i < |Step(n, x, h, op, index).facts| && Step(n, x, h, op, index).facts[i].status.Active?
    ensures var f := Step(n, x, h, op, index).facts[i];
            f.slotKey in MapStep(n, m, op) && MapStep(n, m, op)[f.slotKey] == f.value
  {
    SameSlot(h.facts, m, op.slotKey);
    var active := ActiveIndex(h.facts, op.slotKey);
    if i < |h.facts| {
      assert h.facts[i].status.Active?;
      assert h.facts[i].slotKey == op.slotKey ==> i == active.value;
    }
  }

  lemma StepSlots(n: Normalizers, x: Stamp, h: History, op: Operation, index: nat, m: map<Text, Text>, slot: Text)
    requires Shows(h.facts, m) && slot in MapStep(n, m, op)
    ensures ActiveIndex(Step(n, x, h, op, index).facts, slot).Some?
  {
    var after := Step(n, x, h, op, index).facts;
    SameSlot(h.facts, m, op.slotKey);
    var active := ActiveIndex(h.facts, op.slotKey);
    if slot != op.slotKey || op.Retract? {
      var i := ActiveIndex(h.facts, slot).value;
      assert IsActive(after[i], slot);
    } else if active.Some? && n.dedupKey(m[slot]) == n.dedupKey(op.value) {
      assert IsActive(after[active.value], slot);
    } else {
      assert IsActive(after[|after| - 1], slot);
    }
  }

  lemma StepIsOnRecord(n: Normalizers, x: Stamp, h: History, op: Operation, index: nat, m: map<Text, Text>)
    requires Shows(h.facts, m)
    ensures Step(n, x, h, op, index).audit == h.audit + MapAudit(x, m, op, index)
  {
    SameSlot(h.facts, m, op.slotKey);
  }

  lemma StepRefinesMap(n: Normalizers, x: Stamp, h: History, op: Operation, index: nat, m: map<Text, Text>)
    requires OneActivePerSlot(h.facts) && Shows(h.facts, m)
    ensures Shows(Step(n, x, h, op, index).facts, MapStep(n, m, op))
  {
    var after, m' := Step(n, x, h, op, index).facts, MapStep(n, m, op);
    forall i | 0 <= i < |after| && after[i].status.Active?
      ensures after[i].slotKey in m' && m'[after[i].slotKey] == after[i].value
    {
      StepValues(n, x, h, op, index, m, i);
    }
    forall slot | slot in m'
      ensures ActiveIndex(after, slot).Some?
    {
      StepSlots(n, x, h, op, index, m, slot);
    }
  }

  lemma {:induction false} StepsRefineMap(
      n: Normalizers, x: Stamp, h: History, ops: seq<Operation>, m: map<Text, Text>)
    requires Ordered(h.facts, x.sourceSequence, 0) && Sound(h.facts) && Shows(h.facts, m)
    ensures Shows(Steps(n, x, h, ops).facts, MapSteps(n, m, ops))
    ensures Steps(n, x, h, ops).audit == h.audit + MapAudits(n, x, m, ops)
  {
    if ops != [] {
      var index := |ops| - 1;
      StepsKeepSound(n, x, h, ops[..index]);
      StepsRefineMap(n, x, h, ops[..index], m);
      StepRefinesMap(n, x, Steps(n, x, h, ops[..index]), ops[index], index, MapSteps(n, m, ops[..index]));
      StepIsOnRecord(n, x, Steps(n, x, h, ops[..index]), ops[index], index, MapSteps(n, m, ops[..index]));
    }
  }

  lemma ShownMapIsUnique(facts: seq<Fact>, m: map<Text, Text>, m': map<Text, Text>)
    requires Shows(facts, m) && Shows(facts, m')
    ensures m == m'
  {
    forall slot
      ensures slot in m <==> slot in m'
      ensures slot in m ==> m[slot] == m'[slot]
    {
      var i := ActiveIndex(facts, slot);
    }
  }

  // ----- History only grows -----

  /** Only an active fact may change, and then only its provenance, status and successor. */
  ghost predicate Evolves(f: Fact, g: Fact) {
    && (!f.status.Active? ==> g == f)
    && g == f.(sources := g.sources, status := g.status, supersededBy := g.supersededBy)
    && (forall t :: t in f.sources ==> t in g.sources) && Distinct(f.sources) <= Distinct(g.sources)
  }

  ghost predicate Extends(before: seq<Fact>, after: seq<Fact>) {
    |before| <= |after| && forall i :: 0 <= i < |before| ==> Evolves(before[i], after[i])
  }

  lemma {:induction false} StepsExtend(n: Normalizers, x: Stamp, h: History, ops: seq<Operation>)
    ensures Extends(h.facts, Steps(n, x, h, ops).facts)
    ensures h.audit <= Steps(n, x, h, ops).audit
  {
    if ops != [] {
      var front, op := ops[..|ops| - 1], ops[|ops| - 1];
      var before := Steps(n, x, h, front);
      StepsExtend(n, x, h, front);
      StepExtends(n, x, before, op, |front|);
      EvolutionContinues(h.facts, before.facts, Steps(n, x, h, ops).facts);
    }
  }

  lemma CitingKeepsOrder(f: Fact, more: seq<Text>)
    requires f.status.Active?
    ensures Evolves(f, f.(sources := Distinct(f.sources + more)))
  {
    DistinctStays(f.sources + more);
    DistinctGrows(f.sources, more);
  }

  lemma StepEvolves(n: Normalizers, x: Stamp, h: History, op: Operation, index: nat, i: nat)
    requires i < |h.facts|
    ensures var after := Step(n, x, h, op, index).facts;
            |h.facts| <= |after| && Evolves(h.facts[i], after[i])
  {
    var f, active := h.facts[i], ActiveIndex(h.facts, op.slotKey);
    if active == Some(i) {
      CitingKeepsOrder(f, op.sources);
    }
  }

  lemma StepExtends(n: Normalizers, x: Stamp, h: History, op: Operation, index: nat)
    ensures Extends(h.facts, Step(n, x, h, op, index).facts)
  {
    forall i | 0 <= i < |h.facts|
      ensures Evolves(h.facts[i], Step(n, x, h, op, index).facts[i])
    {
      StepEvolves(n, x, h, op, index, i);
    }
  }

  lemma EvolutionContinues(a: seq<Fact>, b: seq<Fact>, c: seq<Fact>)
    requires Extends(a, b) && Extends(b, c)
    ensures Extends(a, c)
  {
    forall i | 0 <= i < |a|
      ensures Evolves(a[i], c[i])
    {
      assert Evolves(a[i], b[i]) && Evolves(b[i], c[i]);
    }
  }

  // ----- Every run of extractions from an empty store -----

  datatype Call = Call(ops: seq<Operation>, sourceSequence: nat, statement: Text)

  function Fresh(tenant: Text, conversation: Text, extractorVersion: Text): FactStore {
    FactStore(tenant, conversation, extractorVersion, [], [], -1)
  }

  /** A rejected call raises and leaves the caller with the store it had. */
  function Next(n: Normalizers, store: FactStore, call: Call): FactStore {
    match Applied(n, store, call.ops, call.sourceSequence, call.statement)
    case Success(updated) => updated
    case Failure(_) => store
  }

  function Run(n: Normalizers, store: FactStore, calls: seq<Call>): FactStore {
    if calls == [] then store else Next(n, Run(n, store, calls[..|calls| - 1]), calls[|calls| - 1])
  }

  /** The plain map that the same calls leave behind. */
  function MapRun(n: Normalizers, store: FactStore, calls: seq<Call>): map<Text, Text> {
    if calls == [] then map[]
    else
      var before := Run(n, store, calls[..|calls| - 1]);
      var m := MapRun(n, store, calls[..|calls| - 1]);
      var call := calls[|calls| - 1];
      if Applied(n, before, call.ops, call.sourceSequence, call.statement).Success? then MapSteps(n, m, call.ops)
      else m
  }

  ghost predicate StoreSound(store: FactStore) {
    && store.lastSequence >= -1
    && Ordered(store.facts, (store.lastSequence + 1) as nat, 0)
    && Sound(store.facts)
  }

  lemma AppliedKeepsSound(n: Normalizers, store: FactStore, call: Call)
    requires StoreSound(store)
    ensures StoreSound(Next(n, store, call))
    ensures Extends(store.facts, Next(n, store, call).facts)
  {
    if Applied(n, store, call.ops, call.sourceSequence, call.statement).Success? {
      var x := StampOf(n, store, call.sourceSequence, call.statement);
      StepsKeepSound(n, x, History(store.facts, store.audit), call.ops);
      StepsExtend(n, x, History(store.facts, store.audit), call.ops);
    }
  }

  /** Whatever the calls are, the reached store is sound and its active view is the plain map's. */
  lemma {:induction false} ReachableStoresAreSound(
      n: Normalizers, tenant: Text, conversation: Text, extractorVersion: Text, calls: seq<Call>)
    ensures var empty := Fresh(tenant, conversation, extractorVersion);
            StoreSound(Run(n, empty, calls))
            && Shows(Run(n, empty, calls).facts, MapRun(n, empty, calls))
  {
    if calls != [] {
      var empty := Fresh(tenant, conversation, extractorVersion);
      var front, call := calls[..|calls| - 1], calls[|calls| - 1];
      ReachableStoresAreSound(n, tenant, conversation, extractorVersion, front);
      var before := Run(n, empty, front);
      AppliedKeepsSound(n, before, call);
      if Applied(n, before, call.ops, call.sourceSequence, call.statement).Success? {
        var x := StampOf(n, before, call.sourceSequence, call.statement);
        StepsRefineMap(n, x, History(before.facts, before.audit), call.ops, MapRun(n, empty, front));
      }
    }
  }

  /** No later call ever removes a fact or rewrites what it recorded. */
  lemma {:induction false} RunsOnlyExtend(n: Normalizers, store: FactStore, calls: seq<Call>)
    requires StoreSound(store)
    ensures StoreSound(Run(n, store, calls))
    ensures Extends(store.facts, Run(n, store, calls).facts)
  {
    if calls != [] {
      var front := calls[..|calls| - 1];
      RunsOnlyExtend(n, store, front);
      AppliedKeepsSound(n, Run(n, store, front), calls[|calls| - 1]);
    }
  }

  // ----- The chains of a sound history -----

  /** The last fact of the chain that starts at `facts[i]`. */
  ghost function ChainEnd(facts: seq<Fact>, i: nat): (e: nat)
    requires LinksMatch(facts) && i < |facts|
    ensures i <= e < |facts| && !facts[e].status.Superseded? && facts[e].slotKey == facts[i].slotKey
    ensures e == i <==> !facts[i].status.Superseded?
    decreases |facts| - i
  {
    if facts[i].supersededBy.None? then i
    else
      assert HasSuccessor(facts, i);
      var j :| i < j < |facts| && Succeeds(facts, i, j);
      ChainEnd(facts, j)
  }

  /** Chains never merge and never fork. */
  lemma ChainsAreDisjoint(facts: seq<Fact>, i: nat, i': nat, j: nat, j': nat)
    requires Sound(facts) && i < |facts| && i' < |facts| && j < |facts| && j' < |facts|
    requires Succeeds(facts, i, j) && Succeeds(facts, i', j')
    ensures i == i' <==> j == j'
  {
    assert facts[j].supersedes == Some(facts[i].id) && facts[j'].supersedes == Some(facts[i'].id);
  }
}
