/**
 Whole runs of the Engine: adds, retirements, replies, events, reports and downloads in any order.
 An index keeps denoting its Agent, no Agent speaks after its goodbye, and each says exactly one.
 */
module EngineRuns {
  import opened Outcomes
  import opened Engine

  // ---- Holding downloads to floors ------------------------------------------------------------

  predicate Increasing(at: seq<nat>, bound: nat) {
    && (forall k | 0 <= k < |at| :: at[k] < bound)
    && forall j, k | 0 <= j < k < |at| :: at[j] < at[k]
  }

  // `out` is exactly the elements asked for, each once and in order: `at` is where each stood.
  ghost predicate PickedAt<T>(at: seq<nat>, s: seq<T>, keep: T -> bool, out: seq<T>) {
    && |at| == |out| && Increasing(at, |s|)
    && (forall k | 0 <= k < |at| :: out[k] == s[at[k]])
    && forall i | 0 <= i < |s| :: i in at <==> keep(s[i])
  }

  lemma PickedOneMore<T>(at: seq<nat>, s: seq<T>, keep: T -> bool, out: seq<T>, last: T)
    requires PickedAt(at, s, keep, out) && keep(last)
    ensures PickedAt(at + [|s|], s + [last], keep, out + [last])
  {
    var all, more := at + [|s|], s + [last];
    forall i | 0 <= i < |more|
      ensures i in all <==> keep(more[i])
    {
      assert i < |s| ==> more[i] == s[i];
      assert all[|at|] == |s|;
    }
  }

  lemma PassedOver<T>(at: seq<nat>, s: seq<T>, keep: T -> bool, out: seq<T>, last: T)
    requires PickedAt(at, s, keep, out) && !keep(last)
    ensures PickedAt(at, s + [last], keep, out)
  {
    var more := s + [last];
    forall i | 0 <= i < |more|
      ensures i in at <==> keep(more[i])
    {
      assert i < |s| ==> more[i] == s[i];
    }
  }

  lemma {:induction false} FilteredInOrder<T>(s: seq<T>, keep: T -> bool) returns (at: seq<nat>)
    ensures PickedAt(at, s, keep, Filtered(s, keep))
    decreases |s|
  {
    if s == [] {
      return [];
    }
    var most, last := s[..|s| - 1], s[|s| - 1];
    at := FilteredInOrder(most, keep);
    assert most + [last] == s;
    FilteredOneMore(most, last, keep);
    if keep(last) {
      PickedOneMore(at, most, keep, Filtered(most, keep), last);
      at := at + [|most|];
    } else {
      PassedOver(at, most, keep, Filtered(most, keep), last);
    }
  }

  // The queue that is left is exactly the downloads not refused, in the same order.
  lemma KeptInOrder(slots: seq<Slot>, queue: seq<Queued>, floor: FloorOf) returns (at: seq<nat>)
    ensures var kept := Kept(slots, queue, floor);
            && |at| == |kept| && Increasing(at, |queue|)
            && (forall k | 0 <= k < |at| :: kept[k] == queue[at[k]])
            && forall i | 0 <= i < |queue| :: i in at <==> Refusal(slots, queue[i], floor).None?
  {
    at := FilteredInOrder(queue, NotRefused(slots, floor));
  }

  // What is recorded on an Agent is exactly its own refused downloads, each once, in order, and
  // then it owes a report.
  lemma RefusedInOrder(slots: seq<Slot>, queue: seq<Queued>, floor: FloorOf, index: nat) returns (at: seq<nat>)
    requires index < |slots|
    ensures Increasing(at, |queue|)
    ensures forall i | 0 <= i < |queue| :: i in at <==> queue[i].0 == index && Refusal(slots, queue[i], floor).Some?
    ensures forall k | 0 <= k < |at| :: at[k] in at && Refusal(slots, queue[at[k]], floor).Some?
    ensures var was, now := slots[index], Held(slots, queue, floor)[index];
            && |at| == |now.agent.outcomes| - |was.agent.outcomes|
            && was.agent.outcomes <= now.agent.outcomes
            && (forall k | 0 <= k < |at| ::
                  now.agent.outcomes[|was.agent.outcomes| + k]
                  == (queue[at[k]].1.package.hash, Err(Refusal(slots, queue[at[k]], floor).value)))
            && (now.owes <==> was.owes || at != [])
  {
    at := RefusedOutcomesInOrder(slots, queue, floor, index);
    HeldAt(slots, queue, floor, index);
  }

  lemma HeldAt(slots: seq<Slot>, queue: seq<Queued>, floor: FloorOf, index: nat)
    requires index < |slots|
    ensures var was, now := slots[index], Held(slots, queue, floor)[index];
            var more := RefusedOutcomes(slots, queue, floor, index);
            && now.agent.outcomes == was.agent.outcomes + more && (now.owes <==> was.owes || more != [])
            && forall k | 0 <= k < |more| :: now.agent.outcomes[|was.agent.outcomes| + k] == more[k]
  {
    assert Held(slots, queue, floor)[index] == HeldSlot(slots, queue, floor, index);
  }

  lemma RefusedOutcomesInOrder(slots: seq<Slot>, queue: seq<Queued>, floor: FloorOf, index: nat) returns (at: seq<nat>)
    ensures Increasing(at, |queue|)
    ensures forall i | 0 <= i < |queue| :: i in at <==> queue[i].0 == index && Refusal(slots, queue[i], floor).Some?
    ensures forall k | 0 <= k < |at| :: at[k] in at && Refusal(slots, queue[at[k]], floor).Some?
    ensures var outcomes := RefusedOutcomes(slots, queue, floor, index);
            && |at| == |outcomes|
            && forall k | 0 <= k < |at| ::
                 outcomes[k] == (queue[at[k]].1.package.hash, Err(Refusal(slots, queue[at[k]], floor).value))
  {
    at := FilteredInOrder(queue, RefusedAt(slots, floor, index));
    forall k | 0 <= k < |at|
      ensures at[k] in at && Refusal(slots, queue[at[k]], floor).Some?
    {
    }
  }

  // ---- Runs -----------------------------------------------------------------------------------

  // The Engine, the downloads its transport has taken and not finished, and every message sent.
  datatype System = System(core: Core, inFlight: seq<Queued>, sent: seq<Message>)

  datatype Operation =
    | Reply(uid: Option<Uid>, reaction: Reaction)
    | Event(tagged: Tagged)
    | Poll
    | Owed
    | Probe
    | Enrol
    | OweAll
    | Add(agent: Agent, block: Option<string>, floors: bool)
    | Retire(names: seq<string>, drained: nat -> seq<Tagged>)
    | Hold(floor: FloorOf)
    | TakeDownloads
    | Finish(k: nat, accepted: bool, install: SelfInstall)
    | FailDownload(k: nat, error: string)

  // The Client's own Agent: the first live one that is not managed.
  function FirstOwn(slots: seq<Slot>): (found: Option<nat>)
    ensures found.Some? ==> && found.value < |slots| && Live(slots[found.value]) && !slots[found.value].agent.managed
                            && forall j | 0 <= j < found.value :: Live(slots[j]) ==> slots[j].agent.managed
    ensures found.None? ==> forall j | 0 <= j < |slots| :: Live(slots[j]) ==> slots[j].agent.managed
  {
    if slots == [] then None
    else
      var n := |slots| - 1;
      var before := FirstOwn(slots[..n]);
      if before.Some? then before else if Live(slots[n]) && !slots[n].agent.managed then Some(n) else None
  }

  function AllOwing(slots: seq<Slot>): (after: seq<Slot>)
    ensures |after| == |slots|
  {
    seq(|slots|, i requires 0 <= i < |slots| => slots[i].(owes := true))
  }

  function Without<T>(s: seq<T>, k: nat): seq<T>
    requires k < |s|
  {
    s[..k] + s[k + 1..]
  }

  function SlotsAfter(s: System, op: Operation): seq<Slot> {
    var slots := s.core.slots;
    match op
    case Reply(uid, reaction) => Handled(s.core, uid, reaction).slots
    case Event(tagged) => Absorbed(slots, tagged)
    case Poll => Reported(slots, Live)
    case Owed => Reported(slots, Owing)
    case OweAll => AllOwing(slots)
    case Add(agent, block, floors) =>
      slots + [NewSlot(agent, block, floors)]
    case Retire(names, drained) => Retiring(slots, names, drained, |slots|)
    case Hold(floor) => Held(slots, s.core.downloads, floor)
    case Finish(k, accepted, install) =>
      if k < |s.inFlight| then Applying(slots, s.inFlight[k].0, s.inFlight[k].1.package, accepted, install) else slots
    case FailDownload(k, error) =>
      if k < |s.inFlight| then Recorded(slots, s.inFlight[k].0, s.inFlight[k].1.package.hash, Err(error)) else slots
    case _ => slots
  }

  // The downloads waiting in the Engine, and those its transport holds.
  function QueuesAfter(s: System, op: Operation): (seq<Queued>, seq<Queued>) {
    match op
    case Reply(uid, reaction) => (Handled(s.core, uid, reaction).downloads, s.inFlight)
    case Hold(floor) => (Kept(s.core.slots, s.core.downloads, floor), s.inFlight)
    case TakeDownloads => ([], s.inFlight + s.core.downloads)
    case Finish(k, _, _) => (s.core.downloads, if k < |s.inFlight| then Without(s.inFlight, k) else s.inFlight)
    case FailDownload(k, _) => (s.core.downloads, if k < |s.inFlight| then Without(s.inFlight, k) else s.inFlight)
    case _ => (s.core.downloads, s.inFlight)
  }

  function MessagesOf(slots: seq<Slot>, op: Operation): seq<Message> {
    match op
    case Poll => ReportsFrom(slots, Live)
    case Owed => ReportsFrom(slots, Owing)
    case Probe => if slots == [] then [] else [Report(0, slots[0].agent.uid)]
    case Enrol =>
      var own := FirstOwn(slots);
      if own.None? then [] else [Report(own.value, slots[own.value].agent.uid)]
    case Retire(names, _) => GoodbyesFrom(slots, LeavingOne(names))
    case _ => []
  }

  function Step(s: System, op: Operation): System {
    var handled := if op.Reply? then Handled(s.core, op.uid, op.reaction) else s.core;
    var (downloads, inFlight) := QueuesAfter(s, op);
    System(Core(SlotsAfter(s, op), downloads, handled.offer, handled.selfConfig), inFlight,
           s.sent + MessagesOf(s.core.slots, op))
  }

  function Steps(s: System, ops: seq<Operation>): System {
    if ops == [] then s else Step(Steps(s, ops[..|ops| - 1]), ops[|ops| - 1])
  }

  // The connection's last messages.
  function Disconnected(s: System): System {
    s.(sent := s.sent + GoodbyesFrom(s.core.slots, Live))
  }

  // ---- An index denotes its Agent -------------------------------------------------------------

  // Each queued download is tagged with the slot of the Agent it was offered to.
  ghost predicate Routed(slots: seq<Slot>, downloads: seq<Queued>) {
    forall k | 0 <= k < |downloads| ::
      downloads[k].0 < |slots| && slots[downloads[k].0].agent.who == downloads[k].1.from
  }

  lemma RoutedContinues(was: seq<Slot>, now: seq<Slot>, downloads: seq<Queued>)
    requires Continues(was, now) && Routed(was, downloads)
    ensures Routed(now, downloads)
  {
  }

  // Handing an artifact on touches its slot alone.
  lemma ApplyingKeeps(slots: seq<Slot>, index: nat, package: Package, accepted: bool, install: SelfInstall)
    ensures Same(slots, Applying(slots, index, package, accepted, install))
    ensures forall j | 0 <= j < |slots| && j != index ::
              Applying(slots, index, package, accepted, install)[j] == slots[j]
  {
    if index < |slots| {
      var own, commands := index == SELF_AGENT_INDEX, slots[index].commands;
      var outcome := InstallOutcome(own, commands, package.version, accepted, install);
      if outcome.Some? {
        RecordedKeeps(slots, index, package.hash, outcome.value);
      }
    }
  }

  // All but a reply, an add and a retirement: nobody is re-keyed, retired or added.
  lemma StepKeepsAll(s: System, op: Operation)
    requires !op.Reply? && !op.Add? && !op.Retire?
    ensures Same(s.core.slots, SlotsAfter(s, op))
  {
    var slots := s.core.slots;
    match op
    case Event(tagged) =>
      AbsorbedAllKeeps(slots, [tagged]);
      assert AbsorbedAll(slots, [tagged]) == Absorbed(slots, tagged);
    case Poll => ReportedKeeps(slots, Live);
    case Owed => ReportedKeeps(slots, Owing);
    case Hold(floor) => HeldKeeps(slots, s.core.downloads, floor);
    case Finish(k, accepted, install) =>
      if k < |s.inFlight| {
        ApplyingKeeps(slots, s.inFlight[k].0, s.inFlight[k].1.package, accepted, install);
      }
    case FailDownload(k, error) =>
      if k < |s.inFlight| {
        RecordedKeeps(slots, s.inFlight[k].0, s.inFlight[k].1.package.hash, Err(error));
      }
    case _ =>
  }

  lemma StepContinues(s: System, op: Operation)
    ensures Continues(s.core.slots, SlotsAfter(s, op))
    ensures forall i | 0 <= i < |s.core.slots| ::
              var was := s.core.slots[i];
              SlotsAfter(s, op)[i].retired == (was.retired || (op.Retire? && Leaving(was, op.names)))
    ensures |SlotsAfter(s, op)| == |s.core.slots| + if op.Add? then 1 else 0
    ensures op.Add? ==> Live(SlotsAfter(s, op)[|s.core.slots|])
  {
    match op
    case Reply(uid, reaction) => HandledKeeps(s.core, uid, reaction);
    case Retire(names, drained) => RetiringKeeps(s.core.slots, names, drained, |s.core.slots|);
    case Add(_, _, _) =>
    case _ => StepKeepsAll(s, op);
  }

  // An added Agent takes the next index as it is, live, with an adapter, owing its first report, and held to
  // floors where it or the Engine has them; nobody else changes.
  lemma AddedIsNext(s: System, agent: Agent, block: Option<string>, floors: bool)
    ensures var slots, now := s.core.slots, SlotsAfter(s, Add(agent, block, floors));
            && |now| == |slots| + 1 && now[..|slots|] == slots
            && var added := now[|slots|];
               && added.owes && Live(added) && added.commands && added.block == block
               && added.agent.who == agent.who && added.agent.uid == agent.uid
               && added.agent.serviceName == agent.serviceName && added.agent.managed == agent.managed
               && (added.agent.heldToFloors <==> agent.heldToFloors || floors)
  {
  }

  lemma RoutedReply(s: Core, uid: Option<Uid>, r: Reaction)
    requires Routed(s.slots, s.downloads)
    ensures Routed(Handled(s, uid, r).slots, Handled(s, uid, r).downloads)
  {
    var now := Handled(s, uid, r);
    HandledKeeps(s, uid, r);
    forall k | 0 <= k < |now.downloads|
      ensures now.downloads[k].0 < |now.slots| && now.slots[now.downloads[k].0].agent.who == now.downloads[k].1.from
    {
      if k < |s.downloads| {
        assert now.downloads[k] == s.downloads[k];
      }
    }
  }

  lemma RoutedKept(slots: seq<Slot>, queue: seq<Queued>, floor: FloorOf)
    requires Routed(slots, queue)
    ensures Routed(slots, Kept(slots, queue, floor))
  {
    var at := KeptInOrder(slots, queue, floor);
  }

  lemma RoutedWithout(slots: seq<Slot>, queue: seq<Queued>, k: nat)
    requires Routed(slots, queue) && k < |queue|
    ensures Routed(slots, Without(queue, k))
  {
  }

  lemma StepKeepsRouting(s: System, op: Operation)
    requires Routed(s.core.slots, s.core.downloads) && Routed(s.core.slots, s.inFlight)
    ensures Routed(SlotsAfter(s, op), QueuesAfter(s, op).0) && Routed(SlotsAfter(s, op), QueuesAfter(s, op).1)
  {
    var slots, now := s.core.slots, SlotsAfter(s, op);
    StepContinues(s, op);
    RoutedContinues(slots, now, s.core.downloads);
    RoutedContinues(slots, now, s.inFlight);
    match op
    case Reply(uid, reaction) => RoutedReply(s.core, uid, reaction);
    case Hold(floor) =>
      RoutedKept(slots, s.core.downloads, floor);
      RoutedContinues(slots, now, Kept(slots, s.core.downloads, floor));
    case Finish(k, _, _) =>
      if k < |s.inFlight| {
        RoutedWithout(now, s.inFlight, k);
      }
    case FailDownload(k, _) =>
      if k < |s.inFlight| {
        RoutedWithout(now, s.inFlight, k);
      }
    case _ =>
  }

  // Over every run, the slot a download was queued for holds the Agent it was offered to, and so
  // does any index given out before: `Continues` from any earlier state.
  lemma {:induction false} IndexDenotesItsAgent(s: System, ops: seq<Operation>)
    requires Routed(s.core.slots, s.core.downloads) && Routed(s.core.slots, s.inFlight)
    ensures var now := Steps(s, ops);
            && Continues(s.core.slots, now.core.slots)
            && Routed(now.core.slots, now.core.downloads) && Routed(now.core.slots, now.inFlight)
    decreases |ops|
  {
    if ops != [] {
      var most := ops[..|ops| - 1];
      IndexDenotesItsAgent(s, most);
      StepContinues(Steps(s, most), ops[|ops| - 1]);
      StepKeepsRouting(Steps(s, most), ops[|ops| - 1]);
    }
  }

  lemma FinishReachesItsOwner(s: System, op: Operation)
    requires Routed(s.core.slots, s.inFlight)
    requires (op.Finish? || op.FailDownload?) && op.k < |s.inFlight|
    ensures var slots, after := s.core.slots, SlotsAfter(s, op);
            var (index, download) := s.inFlight[op.k];
            && index < |slots| == |after|
            && slots[index].agent.who == after[index].agent.who == download.from
            && (forall j | 0 <= j < |slots| && j != index :: after[j] == slots[j])
            && (op.FailDownload? ==> after[index] == slots[index].PackageApplied(download.package.hash, Err(op.error)))
  {
    var (index, download) := s.inFlight[op.k];
    if op.Finish? {
      ApplyingKeeps(s.core.slots, index, download.package, op.accepted, op.install);
      assert SlotsAfter(s, op) == Applying(s.core.slots, index, download.package, op.accepted, op.install);
    } else {
      RecordedKeeps(s.core.slots, index, download.package.hash, Err(op.error));
      assert SlotsAfter(s, op) == Recorded(s.core.slots, index, download.package.hash, Err(op.error));
    }
  }

  // A finished or failed download reaches the Agent it was offered to and no other, whatever was
  // added or retired since it was queued.
  lemma DownloadReachesItsOwner(s: System, ops: seq<Operation>, op: Operation)
    requires Routed(s.core.slots, s.core.downloads) && Routed(s.core.slots, s.inFlight)
    requires (op.Finish? || op.FailDownload?) && op.k < |Steps(s, ops).inFlight|
    ensures var before := Steps(s, ops);
            var slots, after := before.core.slots, Step(before, op).core.slots;
            var (index, download) := before.inFlight[op.k];
            && index < |slots| == |after|
            && slots[index].agent.who == after[index].agent.who == download.from
            && (forall j | 0 <= j < |slots| && j != index :: after[j] == slots[j])
            && (op.FailDownload? ==> after[index] == slots[index].PackageApplied(download.package.hash, Err(op.error)))
  {
    IndexDenotesItsAgent(s, ops);
    FinishReachesItsOwner(Steps(s, ops), op);
  }

  // A Supervisor's adapter tags its events with the index the Engine had next when it was started.
  // Whatever happens between, each event reaches that Supervisor's Agent and no other; once the
  // Agent is retired it changes nothing.
  lemma EventReachesItsAgent(
    s: System, agent: Agent, block: Option<string>, floors: bool, ops: seq<Operation>, event: ProcessEvent)
    requires Routed(s.core.slots, s.core.downloads) && Routed(s.core.slots, s.inFlight)
    ensures var index := |s.core.slots|;
            var before := Steps(Step(s, Add(agent, block, floors)), ops).core.slots;
            var after := Absorbed(before, (index, event));
            && index < |before| == |after|
            && before[index].agent.who == after[index].agent.who == agent.who
            && (forall j | 0 <= j < |before| && j != index :: after[j] == before[j])
            && (before[index].retired ==> after == before)
  {
    var added := Step(s, Add(agent, block, floors));
    StepKeepsRouting(s, Add(agent, block, floors));
    IndexDenotesItsAgent(added, ops);
    assert added.core.slots[|s.core.slots|].agent.who == agent.who;
  }

  // ---- No download is lost --------------------------------------------------------------------

  // Every download that waits, in the Engine or with its transport.
  function Waiting(s: System): multiset<Queued> {
    multiset(s.core.downloads) + multiset(s.inFlight)
  }

  function Refused(slots: seq<Slot>, floor: FloorOf): Queued -> bool {
    (queued: Queued) => Refusal(slots, queued, floor).Some?
  }

  // What an operation adds: the package a reply offers to the Agent it reaches.
  function Offered(s: System, op: Operation): multiset<Queued> {
    if op.Reply? && op.uid.Some? && op.reaction.package.Some? && Position(s.core.slots, op.uid.value).Some? then
      var i := Position(s.core.slots, op.uid.value).value;
      multiset{(i, Download(op.reaction.package.value, s.core.slots[i].agent.who))}
    else multiset{}
  }

  // What an operation settles: a finished or failed download, and those a floor refuses.
  function Settled(s: System, op: Operation): multiset<Queued> {
    match op
    case Hold(floor) => multiset(Filtered(s.core.downloads, Refused(s.core.slots, floor)))
    case Finish(k, _, _) => if k < |s.inFlight| then multiset{s.inFlight[k]} else multiset{}
    case FailDownload(k, _) => if k < |s.inFlight| then multiset{s.inFlight[k]} else multiset{}
    case _ => multiset{}
  }

  lemma {:induction false} FilteredInTwo<T(!new)>(s: seq<T>, keep: T -> bool, drop: T -> bool)
    requires forall x :: keep(x) <==> !drop(x)
    ensures multiset(s) == multiset(Filtered(s, keep)) + multiset(Filtered(s, drop))
    decreases |s|
  {
    if s != [] {
      var most, last := s[..|s| - 1], s[|s| - 1];
      FilteredInTwo(most, keep, drop);
      var kept, dropped := Filtered(most, keep), Filtered(most, drop);
      assert s == most + [last];
      if keep(last) {
        assert Filtered(s, keep) == kept + [last] && Filtered(s, drop) == dropped;
      } else {
        assert Filtered(s, keep) == kept && Filtered(s, drop) == dropped + [last];
      }
    }
  }

  lemma FilteredSplits(queue: seq<Queued>, slots: seq<Slot>, floor: FloorOf)
    ensures multiset(queue)
         == multiset(Kept(slots, queue, floor)) + multiset(Filtered(queue, Refused(slots, floor)))
  {
    FilteredInTwo(queue, NotRefused(slots, floor), Refused(slots, floor));
  }

  lemma WithoutOne(s: seq<Queued>, k: nat)
    requires k < |s|
    ensures multiset(s) == multiset(Without(s, k)) + multiset{s[k]}
  {
    assert s == s[..k] + [s[k]] + s[k + 1..];
  }

  lemma ReplyConserves(s: System, op: Operation)
    requires op.Reply?
    ensures multiset(s.core.downloads) + Offered(s, op) == multiset(Handled(s.core, op.uid, op.reaction).downloads)
  {
    if op.uid.Some? && Position(s.core.slots, op.uid.value).Some? {
      HandledReachesOne(s.core, op.uid.value, op.reaction, Position(s.core.slots, op.uid.value).value);
    }
  }

  lemma Exchange<T>(a: multiset<T>, b: multiset<T>, c: multiset<T>, d: multiset<T>)
    requires b == c + d
    ensures a + b == d + (a + c) && b + a == d + (c + a)
  {
  }

  lemma HoldConserves(s: System, floor: FloorOf)
    ensures Waiting(s) == Settled(s, Hold(floor))
                        + (multiset(Kept(s.core.slots, s.core.downloads, floor)) + multiset(s.inFlight))
  {
    FilteredSplits(s.core.downloads, s.core.slots, floor);
    Exchange(multiset(s.inFlight), multiset(s.core.downloads), multiset(Kept(s.core.slots, s.core.downloads, floor)),
             Settled(s, Hold(floor)));
  }

  lemma EndConserves(s: System, k: nat)
    requires k < |s.inFlight|
    ensures Waiting(s)
         == multiset{s.inFlight[k]} + (multiset(s.core.downloads) + multiset(Without(s.inFlight, k)))
  {
    WithoutOne(s.inFlight, k);
    Exchange(multiset(s.core.downloads), multiset(s.inFlight), multiset(Without(s.inFlight, k)),
             multiset{s.inFlight[k]});
  }

  lemma StepConserves(s: System, op: Operation)
    ensures var (downloads, inFlight) := QueuesAfter(s, op);
            Waiting(s) + Offered(s, op) == Settled(s, op) + (multiset(downloads) + multiset(inFlight))
  {
    match op
    case Reply(_, _) => ReplyConserves(s, op);
    case Hold(floor) => HoldConserves(s, floor);
    case Finish(k, _, _) =>
      if k < |s.inFlight| {
        EndConserves(s, k);
      }
    case FailDownload(k, _) =>
      if k < |s.inFlight| {
        EndConserves(s, k);
      }
    case _ =>
  }

  lemma StepWaiting(s: System, op: Operation)
    ensures var (downloads, inFlight) := QueuesAfter(s, op);
            Waiting(Step(s, op)) == multiset(downloads) + multiset(inFlight)
  {
  }

  lemma Balances<T>(
    start: multiset<T>, offered: multiset<T>, settled: multiset<T>, before: multiset<T>,
    more: multiset<T>, done: multiset<T>, now: multiset<T>)
    requires start + offered == settled + before && before + more == done + now
    ensures start + (offered + more) == (settled + done) + now
  {
    assert start + (offered + more) == (start + offered) + more;
    assert (settled + before) + more == settled + (before + more);
  }

  function AllOffered(s: System, ops: seq<Operation>): multiset<Queued> {
    if ops == [] then multiset{}
    else AllOffered(s, ops[..|ops| - 1]) + Offered(Steps(s, ops[..|ops| - 1]), ops[|ops| - 1])
  }

  function AllSettled(s: System, ops: seq<Operation>): multiset<Queued> {
    if ops == [] then multiset{}
    else AllSettled(s, ops[..|ops| - 1]) + Settled(Steps(s, ops[..|ops| - 1]), ops[|ops| - 1])
  }

  // Over every run, what waited at the start and all that was offered since is what was finished, failed or
  // refused, and what still waits: none is lost and none is there twice.
  lemma {:induction false} DownloadsAreConserved(s: System, ops: seq<Operation>)
    ensures Waiting(s) + AllOffered(s, ops) == AllSettled(s, ops) + Waiting(Steps(s, ops))
    decreases |ops|
  {
    if ops != [] {
      var most, last := ops[..|ops| - 1], ops[|ops| - 1];
      var before := Steps(s, most);
      DownloadsAreConserved(s, most);
      StepConserves(before, last);
      StepWaiting(before, last);
      Balances(Waiting(s), AllOffered(s, most), AllSettled(s, most), Waiting(before),
               Offered(before, last), Settled(before, last), Waiting(Step(before, last)));
    }
  }

  // ---- Identities -----------------------------------------------------------------------------

  // A reply that re-keys its Agent to, or an added Agent that brings, the identity of another live one.
  predicate TakesTaken(slots: seq<Slot>, op: Operation) {
    match op
    case Reply(uid, reaction) =>
      && uid.Some? && Position(slots, uid.value).Some?
      && TakenBut(slots, reaction.uid, Position(slots, uid.value).value)
    case Add(agent, _, _) => TakenBut(slots, agent.uid, |slots|)
    case _ => false
  }

  lemma OthersKeepIdentities(s: System, op: Operation)
    requires !op.Reply? && !op.Add?
    ensures var slots, now := s.core.slots, SlotsAfter(s, op);
            && |now| == |slots|
            && forall i | 0 <= i < |slots| ::
                 now[i].agent.uid == slots[i].agent.uid && (slots[i].retired ==> now[i].retired)
  {
    if op.Retire? {
      RetiringKeeps(s.core.slots, op.names, op.drained, |s.core.slots|);
    } else {
      StepKeepsAll(s, op);
    }
  }

  // One operation keeps the identities of live Agents distinct exactly when it takes none that is taken.
  lemma StepStaysDistinctExactlyWhen(s: System, op: Operation)
    requires DistinctLive(s.core.slots)
    ensures DistinctLive(SlotsAfter(s, op)) <==> !TakesTaken(s.core.slots, op)
  {
    var slots := s.core.slots;
    match op
    case Reply(uid, reaction) =>
      if uid.Some? && Position(slots, uid.value).Some? {
        var i := Position(slots, uid.value).value;
        HandledReachesOne(s.core, uid.value, reaction, i);
        HandledTells(slots[i], i, reaction);
        RekeyStaysDistinctExactlyWhen(slots, i, HandledSlot(slots[i], i, reaction));
      }
    case Add(agent, block, floors) => AddStaysDistinctExactlyWhen(slots, NewSlot(agent, block, floors));
    case _ =>
      OthersKeepIdentities(s, op);
      FewerStayDistinct(slots, SlotsAfter(s, op));
  }

  predicate NothingTaken(s: System, ops: seq<Operation>)
    decreases |ops|
  {
    ops != [] ==>
      && NothingTaken(s, ops[..|ops| - 1])
      && !TakesTaken(Steps(s, ops[..|ops| - 1]).core.slots, ops[|ops| - 1])
  }

  // At every moment of the run each live Agent is reached by its own identity.
  ghost predicate AlwaysReachable(s: System, ops: seq<Operation>)
    decreases |ops|
  {
    && AllReachable(Steps(s, ops).core.slots)
    && (ops != [] ==> AlwaysReachable(s, ops[..|ops| - 1]))
  }

  ghost predicate AllReachable(slots: seq<Slot>) {
    forall i | 0 <= i < |slots| && Live(slots[i]) :: Reachable(slots, i)
  }

  // Over every run, a reply reaches the Agent it names at every moment exactly when no operation
  // re-keys an Agent to, or adds one with, the identity of another live one.
  lemma {:induction false} RepliesReachTheirAgentsExactlyWhen(s: System, ops: seq<Operation>)
    requires DistinctLive(s.core.slots)
    ensures AlwaysReachable(s, ops) <==> NothingTaken(s, ops)
    ensures NothingTaken(s, ops) ==> DistinctLive(Steps(s, ops).core.slots)
    decreases |ops|
  {
    AllReachableExactlyWhenDistinct(Steps(s, ops).core.slots);
    if ops != [] {
      var most, last := ops[..|ops| - 1], ops[|ops| - 1];
      RepliesReachTheirAgentsExactlyWhen(s, most);
      if NothingTaken(s, most) {
        StepStaysDistinctExactlyWhen(Steps(s, most), last);
      }
    }
  }

  // An Agent added under a taken identity is never reached: replies go to the one that has it.
  lemma AddedUnderATakenIdentity(s: System, agent: Agent, block: Option<string>, floors: bool, j: nat)
    requires DistinctLive(s.core.slots) && j < |s.core.slots| && Live(s.core.slots[j])
    requires s.core.slots[j].agent.uid == agent.uid
    ensures var now := SlotsAfter(s, Add(agent, block, floors));
            Position(now, agent.uid) == Some(j) && !Reachable(now, |s.core.slots|)
  {
    var slots, now := s.core.slots, SlotsAfter(s, Add(agent, block, floors));
    assert now[j] == slots[j] && now[|slots|].agent.uid == agent.uid;
    SharedHidesTheLater(now, j, |slots|);
    PositionIsTheOne(slots, j);
    assert forall k | 0 <= k < |slots| :: now[k] == slots[k];
  }

  // Retiring a Supervisor frees the identity of its Agent.
  lemma RetiringFrees(s: System, name: string, i: nat, j: nat, drained: nat -> seq<Tagged>)
    requires DistinctLive(s.core.slots) && i < |s.core.slots| && j < |s.core.slots|
    requires Live(s.core.slots[i]) && Live(s.core.slots[j])
    requires s.core.slots[i].block == Some(name) && s.core.slots[j].block != Some(name)
    ensures var slots, now := s.core.slots, SlotsAfter(s, Retire([name], drained));
            && |now| == |slots| && DistinctLive(now)
            && Live(now[j]) && now[j].agent.uid == slots[j].agent.uid
            && !TakenBut(now, slots[i].agent.uid, j)
  {
    var slots, now := s.core.slots, SlotsAfter(s, Retire([name], drained));
    RetiringKeeps(slots, [name], drained, |slots|);
    FewerStayDistinct(slots, now);
    forall k | 0 <= k < |now| && k != i && Live(now[k])
      ensures now[k].agent.uid != slots[i].agent.uid
    {
      assert Live(slots[k]) && now[k].agent.uid == slots[k].agent.uid;
    }
  }

  // Another Agent may then be re-keyed to it.
  lemma RekeyingToAFreeOne(s: System, j: nat, r: Reaction)
    requires DistinctLive(s.core.slots) && j < |s.core.slots| && Live(s.core.slots[j])
    requires !TakenBut(s.core.slots, r.uid, j)
    ensures var slots, rekey := s.core.slots, Reply(Some(s.core.slots[j].agent.uid), r);
            var now := SlotsAfter(s, rekey);
            && !TakesTaken(slots, rekey) && |now| == |slots| && DistinctLive(now)
            && Live(now[j]) && now[j].agent.uid == r.uid
  {
    var slots := s.core.slots;
    PositionIsTheOne(slots, j);
    HandledReachesOne(s.core, slots[j].agent.uid, r, j);
    HandledTells(slots[j], j, r);
    StepStaysDistinctExactlyWhen(s, Reply(Some(slots[j].agent.uid), r));
  }

  // How an added Agent comes to bring a taken identity although no re-key took one: a Supervisor is
  // retired, another Agent is re-keyed to the identity that is left, and the Supervisor starts again.
  lemma RestartedUnderATakenIdentity(
    s: System, name: string, i: nat, j: nat, r: Reaction, agent: Agent, drained: nat -> seq<Tagged>)
    returns (ops: seq<Operation>)
    requires DistinctLive(s.core.slots) && i < |s.core.slots| && j < |s.core.slots|
    requires Live(s.core.slots[i]) && Live(s.core.slots[j])
    requires s.core.slots[i].block == Some(name) && s.core.slots[j].block != Some(name)
    requires r.uid == agent.uid == s.core.slots[i].agent.uid
    ensures |ops| == 3 && NothingTaken(s, ops[..2]) && ops[2] == Add(agent, Some(name), false)
    ensures TakesTaken(Steps(s, ops[..2]).core.slots, ops[2]) && !DistinctLive(Steps(s, ops).core.slots)
    ensures var now := Steps(s, ops).core.slots;
            |now| == |s.core.slots| + 1 && !Reachable(now, |s.core.slots|) && Position(now, agent.uid) == Some(j)
  {
    var uid := s.core.slots[j].agent.uid;
    var retire, rekey, add := Retire([name], drained), Reply(Some(uid), r), Add(agent, Some(name), false);
    ops := [retire, rekey, add];
    StepsOfThree(s, retire, rekey, add);
    var s1 := Step(s, retire);
    RetiringFrees(s, name, i, j, drained);
    RekeyingToAFreeOne(s1, j, r);
    var s2 := Step(s1, rekey);
    AddedUnderATakenIdentity(s2, agent, Some(name), false, j);
    StepStaysDistinctExactlyWhen(s2, add);
    assert TakenBut(s2.core.slots, agent.uid, |s2.core.slots|);
  }

  // Such a start, written out: the self-Agent and two Supervisors.
  lemma IdentityMayBeTaken() returns (s: System, ops: seq<Operation>)
    ensures DistinctLive(s.core.slots) && Invariant(s) && !AlwaysReachable(s, ops)
  {
    var own := Agent(0, "s", "client", false, true, false, [], []);
    var one, two := Agent(1, "a", "one", true, false, false, [], []), Agent(2, "b", "two", true, false, false, [], []);
    var first, second := NewSlot(one, Some("one"), false), NewSlot(two, Some("two"), false);
    var slots := [Slot(own, None, false, false, false), first, second];
    s := System(Core(slots, [], None, None), [], []);
    var r := Reaction("a", false, None, None, None, true);
    ops := RestartedUnderATakenIdentity(s, "one", 1, 2, r, one, _ => []);
    RepliesReachTheirAgentsExactlyWhen(s, ops);
    assert !NothingTaken(s, ops);
  }

  lemma StepsOneMore(s: System, ops: seq<Operation>, op: Operation)
    ensures Steps(s, ops + [op]) == Step(Steps(s, ops), op)
    ensures NothingTaken(s, ops + [op]) <==> NothingTaken(s, ops) && !TakesTaken(Steps(s, ops).core.slots, op)
  {
    assert (ops + [op])[..|ops|] == ops;
  }

  lemma StepsOfThree(s: System, a: Operation, b: Operation, c: Operation)
    ensures var two := [a, b, c][..2];
            && Steps(s, two) == Step(Step(s, a), b) && Steps(s, [a, b, c]) == Step(Step(Step(s, a), b), c)
            && (NothingTaken(s, two) <==> !TakesTaken(s.core.slots, a) && !TakesTaken(Step(s, a).core.slots, b))
  {
    assert [a, b] == [a, b, c][..2] && [a, b] + [c] == [a, b, c];
    StepsOfTwo(s, a, b);
    StepsOneMore(s, [a, b], c);
  }

  lemma StepsOfTwo(s: System, a: Operation, b: Operation)
    ensures Steps(s, [a, b]) == Step(Step(s, a), b)
    ensures NothingTaken(s, [a, b]) <==> !TakesTaken(s.core.slots, a) && !TakesTaken(Step(s, a).core.slots, b)
  {
    assert [] + [a] == [a] && [a] + [b] == [a, b];
    StepsOneMore(s, [], a);
    StepsOneMore(s, [a], b);
  }

  // ---- Goodbyes -------------------------------------------------------------------------------

  // The Agent in slot `i` has said exactly one goodbye, and nothing since.
  ghost predicate Closed(sent: seq<Message>, i: nat) {
    exists k ::
      && 0 <= k < |sent| && sent[k].Goodbye? && sent[k].slot == i
      && (forall j | 0 <= j < k && sent[j].slot == i :: sent[j].Report?)
      && (forall j | k < j < |sent| :: sent[j].slot != i)
  }

  // The Agent in slot `i` has said no goodbye.
  ghost predicate Open(sent: seq<Message>, i: nat) {
    forall j | 0 <= j < |sent| && sent[j].slot == i :: sent[j].Report?
  }

  // One message for each wanted slot, in slot order and under its Agent's identity, and no other.
  ghost predicate OneEach(out: seq<Message>, slots: seq<Slot>, wanted: Slot -> bool) {
    && (forall k | 0 <= k < |out| ::
          out[k].slot < |slots| && wanted(slots[out[k].slot]) && out[k].uid == slots[out[k].slot].agent.uid)
    && (forall j, k | 0 <= j < k < |out| :: out[j].slot < out[k].slot)
    && forall i | 0 <= i < |slots| && wanted(slots[i]) :: exists k :: 0 <= k < |out| && out[k].slot == i
  }

  ghost predicate GoodbyesOf(out: seq<Message>, slots: seq<Slot>, wanted: Slot -> bool) {
    OneEach(out, slots, wanted) && forall k | 0 <= k < |out| :: out[k].Goodbye?
  }

  ghost predicate ReportsOf(out: seq<Message>, slots: seq<Slot>, wanted: Slot -> bool) {
    OneEach(out, slots, wanted) && forall k | 0 <= k < |out| :: out[k].Report?
  }

  lemma SilentKeeps(sent: seq<Message>, out: seq<Message>, i: nat)
    requires forall k | 0 <= k < |out| :: out[k].slot != i
    ensures Closed(sent, i) ==> Closed(sent + out, i)
    ensures Open(sent, i) ==> Open(sent + out, i)
  {
    var all := sent + out;
    if Closed(sent, i) {
      var k :| && 0 <= k < |sent| && sent[k].Goodbye? && sent[k].slot == i
               && (forall j | 0 <= j < k && sent[j].slot == i :: sent[j].Report?)
               && (forall j | k < j < |sent| :: sent[j].slot != i);
      assert all[k] == sent[k];
    }
  }

  lemma GoodbyeCloses(sent: seq<Message>, out: seq<Message>, slots: seq<Slot>, wanted: Slot -> bool, i: nat)
    requires Open(sent, i) && GoodbyesOf(out, slots, wanted) && i < |slots| && wanted(slots[i])
    ensures Closed(sent + out, i)
  {
    var k :| 0 <= k < |out| && out[k].slot == i;
    var all := sent + out;
    assert all[|sent| + k] == out[k];
    forall j | |sent| <= j < |all| && j != |sent| + k
      ensures all[j].slot != i
    {
      assert all[j] == out[j - |sent|];
    }
    assert forall j | 0 <= j < |sent| :: all[j] == sent[j];
  }

  // One more slot: its message, if it is wanted, comes last.
  lemma OneEachMore(out: seq<Message>, slots: seq<Slot>, last: Slot, m: Message, wanted: Slot -> bool)
    requires OneEach(out, slots, wanted) && m.slot == |slots| && m.uid == last.agent.uid
    ensures OneEach(out + (if wanted(last) then [m] else []), slots + [last], wanted)
  {
    var all, more := slots + [last], out + if wanted(last) then [m] else [];
    assert forall k | 0 <= k < |out| :: more[k] == out[k];
    forall i | 0 <= i < |all| && wanted(all[i])
      ensures exists k :: 0 <= k < |more| && more[k].slot == i
    {
      if i < |slots| {
        assert all[i] == slots[i];
        var k :| 0 <= k < |out| && out[k].slot == i;
        assert more[k].slot == i;
      } else {
        assert more[|out|].slot == i;
      }
    }
  }

  lemma ReportsMore(out: seq<Message>, slots: seq<Slot>, last: Slot, wanted: Slot -> bool)
    requires ReportsOf(out, slots, wanted)
    ensures ReportsOf(out + (if wanted(last) then [Report(|slots|, last.agent.uid)] else []), slots + [last], wanted)
  {
    OneEachMore(out, slots, last, Report(|slots|, last.agent.uid), wanted);
  }

  lemma GoodbyesMore(out: seq<Message>, slots: seq<Slot>, last: Slot, wanted: Slot -> bool)
    requires GoodbyesOf(out, slots, wanted)
    ensures GoodbyesOf(out + (if wanted(last) then [Goodbye(|slots|, last.agent.uid)] else []), slots + [last], wanted)
  {
    OneEachMore(out, slots, last, Goodbye(|slots|, last.agent.uid), wanted);
  }

  // Every wanted Agent reports exactly once, under its own identity, and nobody else does.
  lemma {:induction false} WantedReportOnce(slots: seq<Slot>, wanted: Slot -> bool)
    ensures ReportsOf(ReportsFrom(slots, wanted), slots, wanted)
  {
    if slots != [] {
      var n := |slots| - 1;
      WantedReportOnce(slots[..n], wanted);
      ReportsMore(ReportsFrom(slots[..n], wanted), slots[..n], slots[n], wanted);
      assert slots[..n] + [slots[n]] == slots;
    }
  }

  // After a poll, and after the owed reports, no live Agent owes one; nothing else has changed.
  lemma ReportingSettles(slots: seq<Slot>, i: nat)
    requires i < |slots|
    ensures var polled, owed := Reported(slots, Live)[i], Reported(slots, Owing)[i];
            && (Live(slots[i]) ==> !polled.owes && !owed.owes)
            && polled.agent == owed.agent == slots[i].agent && polled.commands == owed.commands == slots[i].commands
            && polled.block == owed.block == slots[i].block && polled.retired == owed.retired == slots[i].retired
  {
    assert Owing(slots[i]) <==> slots[i].owes && Live(slots[i]);
  }

  // When everybody owes a report, the owed ones are those of a poll, and settle as much.
  lemma OwingAllIsAPoll(s: System, i: nat)
    requires i < |s.core.slots|
    ensures var owed, polled := Step(Step(s, OweAll), Owed), Step(s, Poll);
            && owed.sent == polled.sent && owed.inFlight == polled.inFlight
            && |owed.core.slots| == |polled.core.slots| == |s.core.slots|
            && (Live(s.core.slots[i]) ==> owed.core.slots[i] == polled.core.slots[i])
  {
    AllOwingReport(s.core.slots);
    if Live(s.core.slots[i]) {
      AllOwingSettle(s.core.slots, i);
    }
    assert Step(s, OweAll).core.slots == AllOwing(s.core.slots) && Step(s, OweAll).sent == s.sent + [] == s.sent;
  }

  lemma AllOwingSettle(slots: seq<Slot>, i: nat)
    requires i < |slots| && Live(slots[i])
    ensures Reported(AllOwing(slots), Owing)[i] == Reported(slots, Live)[i]
  {
    var owing := AllOwing(slots);
    assert owing[i] == slots[i].(owes := true) && Owing(owing[i]);
    assert Reported(owing, Owing)[i] == owing[i].(owes := false);
  }

  lemma {:induction false} AllOwingReport(slots: seq<Slot>)
    ensures ReportsFrom(AllOwing(slots), Owing) == ReportsFrom(slots, Live)
  {
    if slots != [] {
      var n := |slots| - 1;
      AllOwingReport(slots[..n]);
      assert AllOwing(slots)[..n] == AllOwing(slots[..n]);
    }
  }

  lemma {:induction false} WantedSayGoodbye(slots: seq<Slot>, wanted: Slot -> bool)
    ensures GoodbyesOf(GoodbyesFrom(slots, wanted), slots, wanted)
  {
    if slots != [] {
      var n := |slots| - 1;
      WantedSayGoodbye(slots[..n], wanted);
      GoodbyesMore(GoodbyesFrom(slots[..n], wanted), slots[..n], slots[n], wanted);
      assert slots[..n] + [slots[n]] == slots;
    }
  }

  // The self-Agent is in slot 0 and belongs to no block; a retired Agent has said its one goodbye
  // and nothing since; a live one has said none; and nobody else has spoken.
  ghost predicate Invariant(s: System) {
    var slots := s.core.slots;
    && slots != [] && slots[0].block.None? && Live(slots[0])
    && (forall m | m in s.sent :: m.slot < |slots|)
    && forall i | 0 <= i < |slots| :: if slots[i].retired then Closed(s.sent, i) else Open(s.sent, i)
  }

  // Reports of live Agents disturb nothing.
  lemma LiveReportsKeep(sent: seq<Message>, out: seq<Message>, slots: seq<Slot>, i: nat)
    requires i < |slots|
    requires forall m | m in out :: m.Report? && m.slot < |slots| && Live(slots[m.slot])
    requires if slots[i].retired then Closed(sent, i) else Open(sent, i)
    ensures if slots[i].retired then Closed(sent + out, i) else Open(sent + out, i)
  {
    if slots[i].retired {
      forall k | 0 <= k < |out|
        ensures out[k].slot != i
      {
        assert out[k] in out;
      }
      SilentKeeps(sent, out, i);
    } else {
      var all := sent + out;
      forall j | 0 <= j < |all| && all[j].slot == i
        ensures all[j].Report?
      {
        assert all[j] in out || all[j] == sent[j];
      }
    }
  }

  // A step that retires nobody sends only reports of live Agents.
  lemma SpeakingKeepsInvariant(s: System, op: Operation)
    requires Invariant(s) && !op.Retire?
    ensures Invariant(Step(s, op))
  {
    var slots, now := s.core.slots, Step(s, op);
    var out := MessagesOf(slots, op);
    StepContinues(s, op);
    OnlyLiveReport(slots, op);
    assert forall m | m in now.sent :: m.slot < |slots|;
    forall i | 0 <= i < |now.core.slots|
      ensures if now.core.slots[i].retired then Closed(now.sent, i) else Open(now.sent, i)
    {
      if i < |slots| {
        LiveReportsKeep(s.sent, out, slots, i);
      } else {
        NewcomerIsOpen(now.sent, |slots|, i);
      }
    }
  }

  lemma NewcomerIsOpen(sent: seq<Message>, known: nat, i: nat)
    requires known <= i && forall m | m in sent :: m.slot < known
    ensures Open(sent, i)
  {
  }

  lemma OnlyLiveReport(slots: seq<Slot>, op: Operation)
    requires !op.Retire? && (slots != [] ==> Live(slots[0]))
    ensures forall m | m in MessagesOf(slots, op) :: m.Report? && m.slot < |slots| && Live(slots[m.slot])
  {
    WantedReportOnce(slots, Live);
    WantedReportOnce(slots, Owing);
  }

  lemma RetireKeepsInvariant(s: System, op: Operation)
    requires Invariant(s) && op.Retire?
    ensures Invariant(Step(s, op))
  {
    var slots, now := s.core.slots, Step(s, op);
    var out := GoodbyesFrom(slots, LeavingOne(op.names));
    StepContinues(s, op);
    WantedSayGoodbye(slots, LeavingOne(op.names));
    forall i | 0 <= i < |slots|
      ensures if now.core.slots[i].retired then Closed(now.sent, i) else Open(now.sent, i)
    {
      if Leaving(slots[i], op.names) {
        GoodbyeCloses(s.sent, out, slots, LeavingOne(op.names), i);
      } else {
        SilentKeeps(s.sent, out, i);
      }
    }
  }

  lemma {:induction false} StepsKeepInvariant(s: System, ops: seq<Operation>)
    requires Invariant(s)
    ensures Invariant(Steps(s, ops))
    decreases |ops|
  {
    if ops != [] {
      StepsKeepInvariant(s, ops[..|ops| - 1]);
      var before, op := Steps(s, ops[..|ops| - 1]), ops[|ops| - 1];
      if op.Retire? {
        RetireKeepsInvariant(before, op);
      } else {
        SpeakingKeepsInvariant(before, op);
      }
    }
  }

  // Over every run with the self-Agent in slot 0, no Agent reports after its goodbye; and a run
  // that ends in one disconnect has each Agent ever added say exactly one goodbye, as its last word.
  lemma EveryAgentSaysOneGoodbye(s: System, ops: seq<Operation>)
    requires Invariant(s)
    ensures var now := Steps(s, ops);
            forall i | 0 <= i < |now.core.slots| && now.core.slots[i].retired :: Closed(now.sent, i)
    ensures var now := Steps(s, ops); forall i | 0 <= i < |now.core.slots| :: Closed(Disconnected(now).sent, i)
    ensures forall m | m in Disconnected(Steps(s, ops)).sent :: m.slot < |Steps(s, ops).core.slots|
  {
    StepsKeepInvariant(s, ops);
    var now := Steps(s, ops);
    var slots, out := now.core.slots, GoodbyesFrom(now.core.slots, Live);
    WantedSayGoodbye(slots, Live);
    forall i | 0 <= i < |slots|
      ensures Closed(now.sent + out, i)
    {
      if Live(slots[i]) {
        GoodbyeCloses(now.sent, out, slots, Live, i);
      } else {
        SilentKeeps(now.sent, out, i);
      }
    }
  }
}
