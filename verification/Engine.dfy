/**
 The Engine (`engine.rs`): many Agents share a connection, keyed by `instance_uid` on the wire and by
 slot index inside the Client. Supervisors come and go while tagged events and downloads are in
 flight; a slot is never reused, so an index keeps meaning the Agent it was given out for.
 */
module Engine {
  import opened Outcomes
  import opened SemVer

  const SELF_AGENT_INDEX := 0

  type Uid = seq<char>

  // An Agent, as far as the Engine relies on it. `who` is which Agent this is: it never changes,
  // while the Server may re-key the `uid`.
  datatype Agent = Agent(
    who: nat,
    uid: Uid,
    serviceName: string,
    managed: bool,
    ownPackage: bool,
    heldToFloors: bool,
    outcomes: seq<(Bytes, Result<string, string>)>,
    configOutcomes: seq<(Bytes, Result<(), string>)>)

  // An Agent's place in the Engine: its adapter may be gone, and it may owe a report or be retired.
  datatype Slot = Slot(agent: Agent, block: Option<string>, commands: bool, owes: bool, retired: bool)
  {
    // The slot with one more package outcome, to be reported.
    function PackageApplied(hash: Bytes, result: Result<string, string>): Slot {
      this.(agent := agent.(outcomes := agent.outcomes + [(hash, result)]), owes := true)
    }
  }

  // A freshly added Agent: live, with an adapter, and owing its first report.
  function NewSlot(agent: Agent, block: Option<string>, floors: bool): Slot {
    Slot(agent.(heldToFloors := agent.heldToFloors || floors), block, true, true, false)
  }

  datatype Package = Package(name: string, version: string, hash: Bytes)

  // A package to download, and the Agent whose reply offered it.
  datatype Download = Download(package: Package, from: nat)

  // A download tagged with the slot of its Agent.
  type Queued = (nat, Download)

  datatype Message = Report(slot: nat, uid: Uid) | Goodbye(slot: nat, uid: Uid)

  datatype ProcessEvent =
    | ConfigApplied(hash: Bytes, outcome: Result<(), string>)
    | PackageApplied(hash: Bytes, result: Result<string, string>)
    | Changed

  type Tagged = (nat, ProcessEvent)

  // ---- Process events -------------------------------------------------------------------------

  function Absorbing(slot: Slot, event: ProcessEvent): Slot {
    match event
    case ConfigApplied(hash, outcome) =>
      slot.(agent := slot.agent.(configOutcomes := slot.agent.configOutcomes + [(hash, outcome)]), owes := true)
    case PackageApplied(hash, result) => slot.PackageApplied(hash, result)
    case Changed => slot.(owes := true)
  }

  // An event for an unknown or a retired Agent is dropped.
  function Absorbed(slots: seq<Slot>, tagged: Tagged): (after: seq<Slot>)
    ensures |after| == |slots|
  {
    var (index, event) := tagged;
    if index < |slots| && !slots[index].retired then slots[index := Absorbing(slots[index], event)] else slots
  }

  function AbsorbedAll(slots: seq<Slot>, events: seq<Tagged>): (after: seq<Slot>)
    ensures |after| == |slots|
    decreases |events|
  {
    if events == [] then slots
    else Absorbed(AbsorbedAll(slots, events[..|events| - 1]), events[|events| - 1])
  }

  // ---- Reports and goodbyes -------------------------------------------------------------------

  predicate Live(slot: Slot) {
    !slot.retired
  }

  predicate Owing(slot: Slot) {
    slot.owes && !slot.retired
  }

  function ReportsFrom(slots: seq<Slot>, wanted: Slot -> bool): seq<Message> {
    if slots == [] then []
    else
      var n := |slots| - 1;
      ReportsFrom(slots[..n], wanted) + if wanted(slots[n]) then [Report(n, slots[n].agent.uid)] else []
  }

  function GoodbyesFrom(slots: seq<Slot>, wanted: Slot -> bool): seq<Message> {
    if slots == [] then []
    else
      var n := |slots| - 1;
      GoodbyesFrom(slots[..n], wanted) + if wanted(slots[n]) then [Goodbye(n, slots[n].agent.uid)] else []
  }

  function Reported(slots: seq<Slot>, wanted: Slot -> bool): (after: seq<Slot>)
    ensures |after| == |slots|
  {
    seq(|slots|, i requires 0 <= i < |slots| => if wanted(slots[i]) then slots[i].(owes := false) else slots[i])
  }

  // ---- Retirement -----------------------------------------------------------------------------

  predicate Leaving(slot: Slot, names: seq<string>) {
    !slot.retired && slot.block.Some? && slot.block.value in names
  }

  // The slots after the first `n` have been gone through. While an adapter winds down, the events
  // it and its neighbours still send are absorbed: `drained` says which, per slot.
  function Retiring(slots: seq<Slot>, names: seq<string>, drained: nat -> seq<Tagged>, n: nat): (after: seq<Slot>)
    requires n <= |slots|
    ensures |after| == |slots|
    decreases n
  {
    if n == 0 then slots
    else
      var before := Retiring(slots, names, drained, n - 1);
      if !Leaving(slots[n - 1], names) then before
      else
        var settled := if slots[n - 1].commands then AbsorbedAll(before, drained(n - 1)) else before;
        settled[n - 1 := settled[n - 1].(commands := false, retired := true)]
  }

  function LeavingOne(names: seq<string>): Slot -> bool {
    slot => Leaving(slot, names)
  }

  // ---- Replies --------------------------------------------------------------------------------

  // The first live Agent with this identity.
  function Position(slots: seq<Slot>, uid: Uid): (found: Option<nat>)
    ensures found.Some? ==> && found.value < |slots| && Live(slots[found.value])
                            && slots[found.value].agent.uid == uid
                            && forall j | 0 <= j < found.value :: slots[j].retired || slots[j].agent.uid != uid
    ensures found.None? ==> forall j | 0 <= j < |slots| :: slots[j].retired || slots[j].agent.uid != uid
  {
    if slots == [] then None
    else
      var n := |slots| - 1;
      var before := Position(slots[..n], uid);
      if before.Some? then before
      else if Live(slots[n]) && slots[n].agent.uid == uid then Some(n)
      else None
  }

  // What the addressed Agent makes of a reply: its identity afterwards, and what is left for the
  // Engine. `accepted` says whether its adapter takes the command the Engine hands on.
  datatype Reaction = Reaction(
    uid: Uid,
    sendReport: bool,
    offer: Option<Bytes>,
    package: Option<Package>,
    config: Option<Bytes>,
    accepted: bool)

  datatype Core = Core(
    slots: seq<Slot>,
    downloads: seq<Queued>,
    offer: Option<Bytes>,
    selfConfig: Option<Bytes>)

  function HandledSlot(slot: Slot, index: nat, r: Reaction): Slot {
    var told := slot.(agent := slot.agent.(uid := r.uid), owes := slot.owes || r.sendReport);
    if r.config.Some? && !(index == SELF_AGENT_INDEX && !slot.agent.managed) && slot.commands && !r.accepted then
      told.(agent := told.agent.(configOutcomes := told.agent.configOutcomes
                                   + [(r.config.value, Err("the supervisor is not accepting commands"))]),
            owes := true)
    else told
  }

  // The whole effect of a reply: on one slot, on the queue and on what waits for the transport.
  function Handled(s: Core, uid: Option<Uid>, r: Reaction): Core {
    if uid.None? || Position(s.slots, uid.value).None? then s
    else
      var index := Position(s.slots, uid.value).value;
      var slot := s.slots[index];
      Core(s.slots[index := HandledSlot(slot, index, r)],
           s.downloads + (if r.package.Some? then [(index, Download(r.package.value, slot.agent.who))] else []),
           if r.offer.Some? then r.offer else s.offer,
           if r.config.Some? && index == SELF_AGENT_INDEX && !slot.agent.managed then r.config else s.selfConfig)
  }

  // ---- Floors ---------------------------------------------------------------------------------

  type FloorOf = string -> Result<Option<string>, string>

  // The reason to refuse a version, if there is one: none for an Agent with a package of its own or
  // without floors.
  function FloorRefusal(agent: Agent, version: string, floor: FloorOf): Option<string> {
    if agent.ownPackage || !agent.heldToFloors then None
    else
      match floor(agent.serviceName)
      case Err(reason) => Some(reason)
      case Ok(Some(kept)) => if Precedence(version, kept) == Some(Less) then Some("below the floor") else None
      case Ok(None) => None
  }

  function Refusal(slots: seq<Slot>, queued: Queued, floor: FloorOf): Option<string> {
    if queued.0 < |slots| then FloorRefusal(slots[queued.0].agent, queued.1.package.version, floor) else None
  }

  // The elements to keep, in their order.
  function Filtered<T>(s: seq<T>, keep: T -> bool): seq<T> {
    if s == [] then []
    else Filtered(s[..|s| - 1], keep) + if keep(s[|s| - 1]) then [s[|s| - 1]] else []
  }

  function NotRefused(slots: seq<Slot>, floor: FloorOf): Queued -> bool {
    (queued: Queued) => Refusal(slots, queued, floor).None?
  }

  function RefusedAt(slots: seq<Slot>, floor: FloorOf, index: nat): Queued -> bool {
    (queued: Queued) => queued.0 == index && Refusal(slots, queued, floor).Some?
  }

  function Kept(slots: seq<Slot>, queue: seq<Queued>, floor: FloorOf): seq<Queued> {
    Filtered(queue, NotRefused(slots, floor))
  }

  // The outcome of a refused download.
  function RefusedOutcome(slots: seq<Slot>, queued: Queued, floor: FloorOf): (Bytes, Result<string, string>) {
    var refusal := Refusal(slots, queued, floor);
    (queued.1.package.hash, Err(if refusal.Some? then refusal.value else ""))
  }

  // The outcomes a pass over the queue records on the Agent at `index`, in the queue's order.
  function RefusedOutcomes(slots: seq<Slot>, queue: seq<Queued>, floor: FloorOf, index: nat)
    : seq<(Bytes, Result<string, string>)>
  {
    var refused := Filtered(queue, RefusedAt(slots, floor, index));
    seq(|refused|, k requires 0 <= k < |refused| => RefusedOutcome(slots, refused[k], floor))
  }

  function HeldSlot(slots: seq<Slot>, queue: seq<Queued>, floor: FloorOf, index: nat): Slot
    requires index < |slots|
  {
    var refused := RefusedOutcomes(slots, queue, floor, index);
    var slot := slots[index];
    slot.(agent := slot.agent.(outcomes := slot.agent.outcomes + refused), owes := slot.owes || refused != [])
  }

  function Held(slots: seq<Slot>, queue: seq<Queued>, floor: FloorOf): (after: seq<Slot>)
    ensures |after| == |slots|
  {
    seq(|slots|, i requires 0 <= i < |slots| => HeldSlot(slots, queue, floor, i))
  }

  // ---- The Engine object ----------------------------------------------------------------------

  datatype SelfInstall = Staged | AlreadyRunning | Failed(why: string)

  // What handing a verified artifact on ends in: nothing yet while the install goes on.
  function InstallOutcome(own: bool, commands: bool, version: string, accepted: bool, install: SelfInstall)
    : Option<Result<string, string>>
  {
    if own then
      match install
      case Staged => None
      case AlreadyRunning => Some(Ok(version))
      case Failed(why) => Some(Err(why))
    else if !commands then Some(Err("this agent has no process to install a package into"))
    else if !accepted then Some(Err("the supervisor is not accepting commands"))
    else None
  }

  function Recorded(slots: seq<Slot>, index: nat, hash: Bytes, result: Result<string, string>): seq<Slot> {
    if index < |slots| then slots[index := slots[index].PackageApplied(hash, result)] else slots
  }

  function Applying(slots: seq<Slot>, index: nat, package: Package, accepted: bool, install: SelfInstall): seq<Slot> {
    if index >= |slots| then slots
    else
      var own, commands := index == SELF_AGENT_INDEX, slots[index].commands;
      var outcome := InstallOutcome(own, commands, package.version, accepted, install);
      if outcome.None? then slots else Recorded(slots, index, package.hash, outcome.value)
  }

  class Multiplexer {
    var slots: seq<Slot>
    var downloads: seq<Queued>
    var offer: Option<Bytes>
    var selfConfig: Option<Bytes>

    ghost function State(): Core
      reads this
    {
      Core(slots, downloads, offer, selfConfig)
    }

    constructor (slots: seq<Slot>)
      ensures State() == Core(slots, [], None, None)
    {
      this.slots, downloads, offer, selfConfig := slots, [], None, None;
    }

    method Absorb(index: nat, event: ProcessEvent)
      modifies this`slots
      ensures slots == Absorbed(old(slots), (index, event))
    {
      if index >= |slots| {
        return;
      }
      if slots[index].retired {
        return;
      }
      slots := slots[index := Absorbing(slots[index], event)];
    }

    method DrainEvents(events: seq<Tagged>)
      modifies this`slots
      ensures slots == AbsorbedAll(old(slots), events)
    {
      var i := 0;
      while i < |events|
        invariant 0 <= i <= |events| && slots == AbsorbedAll(old(slots), events[..i])
      {
        assert events[..i + 1][..i] == events[..i];
        Absorb(events[i].0, events[i].1);
        i := i + 1;
      }
      assert events[..i] == events;
    }

    method Reports(wanted: Slot -> bool) returns (out: seq<Message>)
      modifies this`slots
      ensures out == ReportsFrom(old(slots), wanted) && slots == Reported(old(slots), wanted)
    {
      out := [];
      var was := slots;
      var i := 0;
      while i < |slots|
        invariant 0 <= i <= |slots| == |was|
        invariant out == ReportsFrom(was[..i], wanted)
        invariant forall j | 0 <= j < i :: slots[j] == if wanted(was[j]) then was[j].(owes := false) else was[j]
        invariant forall j | i <= j < |was| :: slots[j] == was[j]
      {
        assert was[..i + 1][..i] == was[..i];
        if wanted(slots[i]) {
          out := out + [Report(i, slots[i].agent.uid)];
          slots := slots[i := slots[i].(owes := false)];
        }
        i := i + 1;
      }
      assert was[..i] == was;
      assert slots == Reported(was, wanted);
    }

    method PollReports() returns (out: seq<Message>)
      modifies this`slots
      ensures out == ReportsFrom(old(slots), Live) && slots == Reported(old(slots), Live)
    {
      out := Reports(Live);
    }

    method OwedReports() returns (out: seq<Message>)
      modifies this`slots
      ensures out == ReportsFrom(old(slots), Owing) && slots == Reported(old(slots), Owing)
    {
      out := Reports(Owing);
    }

    method DisconnectMessages() returns (out: seq<Message>)
      ensures out == GoodbyesFrom(slots, Live)
    {
      out := [];
      var i := 0;
      while i < |slots|
        invariant 0 <= i <= |slots| && out == GoodbyesFrom(slots[..i], Live)
      {
        assert slots[..i + 1][..i] == slots[..i];
        if !slots[i].retired {
          out := out + [Goodbye(i, slots[i].agent.uid)];
        }
        i := i + 1;
      }
      assert slots[..i] == slots;
    }

    method AddSupervisor(agent: Agent, block: Option<string>, floors: bool)
      modifies this`slots
      ensures slots == old(slots) + [NewSlot(agent, block, floors)]
    {
      slots := slots + [NewSlot(agent, block, floors)];
    }

    method Handle(uid: Option<Uid>, r: Reaction)
      modifies this
      ensures State() == Handled(old(State()), uid, r)
    {
      if uid.None? {
        return;
      }
      var found := Position(slots, uid.value);
      if found.None? {
        return;
      }
      var index := found.value;
      var agent, own := slots[index].agent, index == SELF_AGENT_INDEX && !slots[index].agent.managed;
      TellAgent(index, own, r);
      if r.offer.Some? {
        offer := r.offer;
      }
      if r.package.Some? {
        downloads := downloads + [(index, Download(r.package.value, agent.who))];
      }
      if r.config.Some? && own {
        selfConfig := r.config;
      }
    }

    // The addressed Agent's own part of a reply.
    method TellAgent(index: nat, own: bool, r: Reaction)
      requires index < |slots| && own == (index == SELF_AGENT_INDEX && !slots[index].agent.managed)
      modifies this`slots
      ensures slots == old(slots)[index := HandledSlot(old(slots)[index], index, r)]
    {
      var slot := slots[index];
      slot := slot.(agent := slot.agent.(uid := r.uid));
      if r.sendReport {
        slot := slot.(owes := true);
      }
      if r.config.Some? && !own && slot.commands && !r.accepted {
        slot := slot.(agent := slot.agent.(configOutcomes := slot.agent.configOutcomes
                        + [(r.config.value, Err("the supervisor is not accepting commands"))]), owes := true);
      }
      slots := slots[index := slot];
    }

    // Refuses each queued download below its Agent's floor; keeps the others in order.
    method HoldDownloadsToFloors(floor: FloorOf)
      modifies this`slots, this`downloads
      ensures downloads == Kept(old(slots), old(downloads), floor)
      ensures slots == Held(old(slots), old(downloads), floor)
    {
      var queue := downloads;
      ghost var was, part: seq<Queued> := slots, [];
      downloads := [];
      var i := 0;
      HeldNothing(was, floor);
      while i < |queue|
        invariant 0 <= i <= |queue| && part == queue[..i]
        invariant HeldSoFar(was, part, floor)
      {
        HoldDownload(queue[i], floor, was, part);
        part, i := part + [queue[i]], i + 1;
      }
      assert part == queue;
    }

    ghost predicate HeldSoFar(was: seq<Slot>, part: seq<Queued>, floor: FloorOf)
      reads this
    {
      slots == Held(was, part, floor) && downloads == Kept(was, part, floor)
    }

    method HoldDownload(queued: Queued, floor: FloorOf, ghost was: seq<Slot>, ghost part: seq<Queued>)
      requires HeldSoFar(was, part, floor)
      modifies this`slots, this`downloads
      ensures HeldSoFar(was, part + [queued], floor)
    {
      HoldsOneMore(was, part, queued, floor, slots, downloads);
      var refusal := Refusal(slots, queued, floor);
      if refusal.Some? {
        PackageDownloadFailed(queued.0, queued.1.package.hash, refusal.value);
      } else {
        downloads := downloads + [queued];
      }
    }

    method PackageDownloadFailed(index: nat, hash: Bytes, error: string)
      modifies this`slots
      ensures slots == Recorded(old(slots), index, hash, Err(error))
    {
      if index < |slots| {
        slots := slots[index := slots[index].PackageApplied(hash, Err(error))];
      }
    }

    // Slot 0 goes to the self-update, every other slot to its adapter.
    method ApplyPackage(index: nat, package: Package, accepted: bool, install: SelfInstall)
      modifies this`slots
      ensures slots == Applying(old(slots), index, package, accepted, install)
    {
      if index >= |slots| {
        return;
      }
      if index == SELF_AGENT_INDEX {
        match install {
          case Staged =>
          case AlreadyRunning =>
            slots := slots[index := slots[index].PackageApplied(package.hash, Ok(package.version))];
          case Failed(why) => slots := slots[index := slots[index].PackageApplied(package.hash, Err(why))];
        }
        return;
      }
      var error := "this agent has no process to install a package into";
      if slots[index].commands {
        if accepted {
          return;
        }
        error := "the supervisor is not accepting commands";
      }
      slots := slots[index := slots[index].PackageApplied(package.hash, Err(error))];
    }

    // Retires the Agents whose blocks left the set, each with its goodbye; the slots stay.
    method RetireSupervisors(names: seq<string>, drained: nat -> seq<Tagged>) returns (goodbyes: seq<Message>)
      modifies this`slots
      ensures slots == Retiring(old(slots), names, drained, |old(slots)|)
      ensures goodbyes == GoodbyesFrom(old(slots), LeavingOne(names))
    {
      goodbyes := [];
      ghost var was := slots;
      var i := 0;
      RetiringKeeps(was, names, drained, 0);
      while i < |slots|
        invariant 0 <= i <= |slots| == |was|
        invariant slots == Retiring(was, names, drained, i)
        invariant goodbyes == GoodbyesFrom(was[..i], LeavingOne(names))
      {
        RetiringKeeps(was, names, drained, i);
        assert was[..i + 1][..i] == was[..i];
        if Leaving(slots[i], names) {
          if slots[i].commands {
            AbsorbedAllKeeps(slots, drained(i));
            DrainEvents(drained(i));
          }
          slots := slots[i := slots[i].(commands := false, retired := true)];
          goodbyes := goodbyes + [Goodbye(i, slots[i].agent.uid)];
        }
        i := i + 1;
        RetiringKeeps(was, names, drained, i);
      }
      assert was[..i] == was;
    }
  }

  // ---- What no step changes -------------------------------------------------------------------

  // The slots stay where they are, and each stays with its Agent; a retired one stays retired.
  predicate Continues(was: seq<Slot>, now: seq<Slot>) {
    && |was| <= |now|
    && forall i | 0 <= i < |was| ::
         && now[i].agent.who == was[i].agent.who && now[i].block == was[i].block
         && (was[i].retired ==> now[i].retired)
  }

  // As `Continues`, with no slot retired, re-keyed or added.
  predicate Same(was: seq<Slot>, now: seq<Slot>) {
    && |was| == |now|
    && forall i | 0 <= i < |was| ::
         && now[i].agent.who == was[i].agent.who && now[i].agent.uid == was[i].agent.uid
         && now[i].block == was[i].block && now[i].retired == was[i].retired && now[i].commands == was[i].commands
  }

  lemma ReportedKeeps(slots: seq<Slot>, wanted: Slot -> bool)
    ensures Same(slots, Reported(slots, wanted))
  {
  }

  lemma HeldKeeps(slots: seq<Slot>, queue: seq<Queued>, floor: FloorOf)
    ensures Same(slots, Held(slots, queue, floor))
  {
    forall i | 0 <= i < |slots|
      ensures Held(slots, queue, floor)[i] == HeldSlot(slots, queue, floor, i)
    {
    }
  }

  // An outcome touches its slot alone.
  lemma RecordedKeeps(slots: seq<Slot>, index: nat, hash: Bytes, result: Result<string, string>)
    ensures Same(slots, Recorded(slots, index, hash, result))
    ensures forall j | 0 <= j < |slots| && j != index :: Recorded(slots, index, hash, result)[j] == slots[j]
  {
  }

  // It is the last one recorded there, and a report is owed.
  lemma RecordedIsOwed(slots: seq<Slot>, index: nat, hash: Bytes, result: Result<string, string>)
    requires index < |slots|
    ensures var now := Recorded(slots, index, hash, result)[index];
            now.owes && now.agent.outcomes == slots[index].agent.outcomes + [(hash, result)]
  {
  }

  // An artifact handed on ends in an outcome for its hash and a report owed, or the install goes on:
  // in the self-update that was staged, or in an adapter that took the command.
  lemma ApplyingIsOwedUnlessItGoesOn(
    slots: seq<Slot>, index: nat, package: Package, accepted: bool, install: SelfInstall)
    requires index < |slots|
    ensures var was, now := slots[index], Applying(slots, index, package, accepted, install)[index];
            var goesOn := if index == SELF_AGENT_INDEX then install.Staged? else was.commands && accepted;
            if goesOn then now == was
            else exists result ::
              now.owes && now.agent.outcomes == was.agent.outcomes + [(package.hash, result)]
              && (result.Ok? <==> index == SELF_AGENT_INDEX && install.AlreadyRunning?)
              && (result.Ok? ==> result.value == package.version)
              && (index == SELF_AGENT_INDEX && install.Failed? ==> result == Err(install.why))
  {
    var own, commands := index == SELF_AGENT_INDEX, slots[index].commands;
    var outcome := InstallOutcome(own, commands, package.version, accepted, install);
    if outcome.Some? {
      RecordedIsOwed(slots, index, package.hash, outcome.value);
    }
  }

  // A reply touches one slot and re-keys nobody else.
  lemma HandledKeeps(s: Core, uid: Option<Uid>, r: Reaction)
    ensures var now := Handled(s, uid, r).slots;
            && |now| == |s.slots|
            && forall i | 0 <= i < |now| ::
                 && now[i].agent.who == s.slots[i].agent.who && now[i].block == s.slots[i].block
                 && now[i].retired == s.slots[i].retired
  {
  }

  // A configuration goes to the adapter of its Agent, which does not take it: the one thing a reply
  // records, and then a report is owed.
  predicate NotTaken(slot: Slot, index: nat, r: Reaction) {
    r.config.Some? && !(index == SELF_AGENT_INDEX && !slot.agent.managed) && slot.commands && !r.accepted
  }

  // What a reply does to the Agent it reaches: a new identity, a report owed exactly when it owed one,
  // is asked for one or its adapter did not take the configuration, which is then recorded as failed;
  // and nothing else.
  lemma HandledTells(slot: Slot, index: nat, r: Reaction)
    ensures var now := HandledSlot(slot, index, r);
            && now.agent.uid == r.uid && now.agent.who == slot.agent.who && now.agent.outcomes == slot.agent.outcomes
            && now.block == slot.block && now.retired == slot.retired && now.commands == slot.commands
            && (now.owes <==> slot.owes || r.sendReport || NotTaken(slot, index, r))
            && (!NotTaken(slot, index, r) ==> now.agent.configOutcomes == slot.agent.configOutcomes)
            && (NotTaken(slot, index, r) ==>
                  exists why :: now.agent.configOutcomes == slot.agent.configOutcomes + [(r.config.value, Err(why))])
  {
  }

  // A reply reaches the first live Agent of its identity and no other slot changes. The package it offers
  // is queued last, with that slot and the name of its Agent; an offer of settings replaces the one that
  // waits; and a configuration is the Client's own exactly in an unmanaged slot 0.
  lemma HandledReachesOne(s: Core, uid: Uid, r: Reaction, i: nat)
    requires Position(s.slots, uid) == Some(i)
    ensures var now := Handled(s, Some(uid), r);
            && now.slots == s.slots[i := HandledSlot(s.slots[i], i, r)]
            && (r.package.None? ==> now.downloads == s.downloads)
            && (r.package.Some? ==>
                  now.downloads == s.downloads + [(i, Download(r.package.value, s.slots[i].agent.who))])
            && (r.offer.None? ==> now.offer == s.offer) && (r.offer.Some? ==> now.offer == r.offer)
            && (r.config.Some? && i == 0 && !s.slots[i].agent.managed ==> now.selfConfig == r.config)
            && (r.config.None? || i != 0 || s.slots[i].agent.managed ==> now.selfConfig == s.selfConfig)
  {
  }

  // Without a live Agent of its identity a reply changes nothing.
  lemma HandledReachesNone(s: Core, uid: Option<Uid>, r: Reaction)
    requires forall j | 0 <= j < |s.slots| :: s.slots[j].retired || Some(s.slots[j].agent.uid) != uid
    ensures Handled(s, uid, r) == s
  {
  }

  // What an event does to its live Agent: the outcome it carries is recorded last, and a report is owed.
  lemma AbsorbedTells(slot: Slot, event: ProcessEvent)
    ensures var now := Absorbing(slot, event);
            && now.owes && now.block == slot.block && now.commands == slot.commands && now.retired == slot.retired
            && now.agent.who == slot.agent.who && now.agent.uid == slot.agent.uid
            && (event.PackageApplied? ==> now.agent.outcomes == slot.agent.outcomes + [(event.hash, event.result)])
            && (!event.PackageApplied? ==> now.agent.outcomes == slot.agent.outcomes)
            && (event.ConfigApplied? ==>
                  now.agent.configOutcomes == slot.agent.configOutcomes + [(event.hash, event.outcome)])
            && (!event.ConfigApplied? ==> now.agent.configOutcomes == slot.agent.configOutcomes)
  {
  }

  // An event reaches its Agent and no other; one for an unknown or a retired Agent changes nothing.
  lemma AbsorbedReachesOne(slots: seq<Slot>, tagged: Tagged, i: nat)
    requires i < |slots|
    ensures Absorbed(slots, tagged)[i]
         == if i == tagged.0 && !slots[i].retired then Absorbing(slots[i], tagged.1) else slots[i]
  {
  }

  // ---- Routing by identity --------------------------------------------------------------------

  // No two live Agents share an identity.
  predicate DistinctLive(slots: seq<Slot>) {
    forall i, j | 0 <= i < j < |slots| && Live(slots[i]) && Live(slots[j]) :: slots[i].agent.uid != slots[j].agent.uid
  }

  // A live Agent is reached by its own identity.
  predicate Reachable(slots: seq<Slot>, i: nat)
    requires i < |slots|
  {
    Position(slots, slots[i].agent.uid) == Some(i)
  }

  lemma PositionIsTheOne(slots: seq<Slot>, i: nat)
    requires DistinctLive(slots) && i < |slots| && Live(slots[i])
    ensures Reachable(slots, i)
  {
    var found := Position(slots, slots[i].agent.uid);
    assert found.Some?;
    assert found.value <= i;
  }

  // Of two live Agents with one identity the later is never reached.
  lemma SharedHidesTheLater(slots: seq<Slot>, i: nat, j: nat)
    requires i < j < |slots| && Live(slots[i]) && slots[i].agent.uid == slots[j].agent.uid
    ensures !Reachable(slots, j)
  {
    var found := Position(slots, slots[j].agent.uid);
    assert found.Some? && found.value <= i;
  }

  // Every live Agent is reached by its identity exactly when no two share one.
  lemma AllReachableExactlyWhenDistinct(slots: seq<Slot>)
    ensures (forall i | 0 <= i < |slots| && Live(slots[i]) :: Reachable(slots, i)) <==> DistinctLive(slots)
  {
    if DistinctLive(slots) {
      forall i | 0 <= i < |slots| && Live(slots[i])
        ensures Reachable(slots, i)
      {
        PositionIsTheOne(slots, i);
      }
    } else {
      var i, j :| 0 <= i < j < |slots| && Live(slots[i]) && Live(slots[j]) && slots[i].agent.uid == slots[j].agent.uid;
      SharedHidesTheLater(slots, i, j);
    }
  }

  // Some live Agent other than the one at `but` has this identity.
  predicate TakenBut(slots: seq<Slot>, uid: Uid, but: nat) {
    exists j :: 0 <= j < |slots| && j != but && Live(slots[j]) && slots[j].agent.uid == uid
  }

  lemma RekeyStaysDistinctExactlyWhen(slots: seq<Slot>, i: nat, told: Slot)
    requires DistinctLive(slots) && i < |slots| && Live(told)
    ensures DistinctLive(slots[i := told]) <==> !TakenBut(slots, told.agent.uid, i)
  {
    var now := slots[i := told];
    if TakenBut(slots, told.agent.uid, i) {
      var j :| 0 <= j < |slots| && j != i && Live(slots[j]) && slots[j].agent.uid == told.agent.uid;
      assert now[j] == slots[j] && now[i] == told;
    }
  }

  lemma AddStaysDistinctExactlyWhen(slots: seq<Slot>, added: Slot)
    requires DistinctLive(slots) && Live(added)
    ensures DistinctLive(slots + [added]) <==> !TakenBut(slots, added.agent.uid, |slots|)
  {
    var now := slots + [added];
    if TakenBut(slots, added.agent.uid, |slots|) {
      var j :| 0 <= j < |slots| && Live(slots[j]) && slots[j].agent.uid == added.agent.uid;
      assert now[j] == slots[j] && now[|slots|] == added;
    }
  }

  // Where nobody is re-keyed or brought back, identities stay distinct.
  lemma FewerStayDistinct(was: seq<Slot>, now: seq<Slot>)
    requires DistinctLive(was) && |now| == |was|
    requires forall i | 0 <= i < |was| :: now[i].agent.uid == was[i].agent.uid && (was[i].retired ==> now[i].retired)
    ensures DistinctLive(now)
  {
  }

  lemma HeldNothing(slots: seq<Slot>, floor: FloorOf)
    ensures Held(slots, [], floor) == slots
  {
    assert forall i | 0 <= i < |slots| :: HeldSlot(slots, [], floor, i) == slots[i];
  }

  // A refusal is judged alike before and after other refusals were recorded.
  lemma HeldOneMore(slots: seq<Slot>, queue: seq<Queued>, last: Queued, floor: FloorOf)
    ensures Refusal(Held(slots, queue, floor), last, floor) == Refusal(slots, last, floor)
    ensures var held, refusal := Held(slots, queue, floor), Refusal(slots, last, floor);
            Held(slots, queue + [last], floor)
            == if refusal.Some? then Recorded(held, last.0, last.1.package.hash, Err(refusal.value)) else held
  {
    var held, after := Held(slots, queue, floor), Held(slots, queue + [last], floor);
    var refusal := Refusal(slots, last, floor);
    forall i | 0 <= i < |slots|
      ensures after[i] == if refusal.Some? && i == last.0
                          then held[i].PackageApplied(last.1.package.hash, Err(refusal.value)) else held[i]
    {
      HeldSlotOneMore(slots, queue, last, floor, i);
    }
  }

  // One download of the pass: what it does to the slots and to the queue.
  lemma HoldsOneMore(was: seq<Slot>, part: seq<Queued>, last: Queued, floor: FloorOf, now: seq<Slot>, kept: seq<Queued>)
    requires now == Held(was, part, floor) && kept == Kept(was, part, floor)
    ensures var refusal := Refusal(now, last, floor);
            && Held(was, part + [last], floor)
               == (if refusal.Some? then Recorded(now, last.0, last.1.package.hash, Err(refusal.value)) else now)
            && Kept(was, part + [last], floor) == if refusal.Some? then kept else kept + [last]
  {
    HeldOneMore(was, part, last, floor);
    FilteredOneMore(part, last, NotRefused(was, floor));
  }

  lemma HeldSlotOneMore(slots: seq<Slot>, queue: seq<Queued>, last: Queued, floor: FloorOf, i: nat)
    requires i < |slots|
    ensures var refusal := Refusal(slots, last, floor);
            HeldSlot(slots, queue + [last], floor, i)
            == if refusal.Some? && i == last.0
               then HeldSlot(slots, queue, floor, i).PackageApplied(last.1.package.hash, Err(refusal.value))
               else HeldSlot(slots, queue, floor, i)
  {
    var refused := RefusedOutcomes(slots, queue, floor, i);
    var more := RefusedOutcomes(slots, queue + [last], floor, i);
    var refusal := Refusal(slots, last, floor);
    FilteredOneMore(queue, last, RefusedAt(slots, floor, i));
    if refusal.Some? && i == last.0 {
      var one := (last.1.package.hash, Result<string, string>.Err(refusal.value));
      assert more == refused + [one];
      assert slots[i].agent.outcomes + more == (slots[i].agent.outcomes + refused) + [one];
    }
  }

  lemma FilteredOneMore<T>(s: seq<T>, last: T, keep: T -> bool)
    ensures Filtered(s + [last], keep) == if keep(last) then Filtered(s, keep) + [last] else Filtered(s, keep)
  {
    assert (s + [last])[..|s|] == s;
  }

  lemma {:induction false} AbsorbedAllKeeps(slots: seq<Slot>, events: seq<Tagged>)
    ensures Same(slots, AbsorbedAll(slots, events))
    decreases |events|
  {
    if events != [] {
      AbsorbedAllKeeps(slots, events[..|events| - 1]);
    }
  }

  // After `n` slots: those that leave are retired, all else about who is where is unchanged.
  lemma {:induction false} RetiringKeeps(slots: seq<Slot>, names: seq<string>, drained: nat -> seq<Tagged>, n: nat)
    requires n <= |slots|
    ensures var now := Retiring(slots, names, drained, n);
            && |now| == |slots|
            && forall i | 0 <= i < |slots| ::
                 && now[i].agent.who == slots[i].agent.who && now[i].agent.uid == slots[i].agent.uid
                 && now[i].block == slots[i].block
                 && now[i].retired == (slots[i].retired || (i < n && Leaving(slots[i], names)))
                 && now[i].commands == (slots[i].commands && !(i < n && Leaving(slots[i], names)))
    decreases n
  {
    if n > 0 {
      RetiringKeeps(slots, names, drained, n - 1);
      AbsorbedAllKeeps(Retiring(slots, names, drained, n - 1), drained(n - 1));
    }
  }

  // Outcomes are only ever added.
  predicate Grows(was: seq<Slot>, now: seq<Slot>) {
    && |was| == |now|
    && forall i | 0 <= i < |was| ::
         && was[i].agent.outcomes <= now[i].agent.outcomes
         && was[i].agent.configOutcomes <= now[i].agent.configOutcomes
  }

  lemma {:induction false} AbsorbedAllGrows(slots: seq<Slot>, events: seq<Tagged>)
    ensures Grows(slots, AbsorbedAll(slots, events))
    decreases |events|
  {
    if events != [] {
      AbsorbedAllGrows(slots, events[..|events| - 1]);
    }
  }

  // A package outcome among the events of a live Agent is recorded on it.
  lemma {:induction false} AbsorbedIsRecorded(slots: seq<Slot>, events: seq<Tagged>, k: nat)
    requires k < |events| && events[k].0 < |slots| && Live(slots[events[k].0]) && events[k].1.PackageApplied?
    ensures (events[k].1.hash, events[k].1.result) in AbsorbedAll(slots, events)[events[k].0].agent.outcomes
    decreases |events|
  {
    var most := events[..|events| - 1];
    var before := AbsorbedAll(slots, most);
    AbsorbedAllKeeps(slots, most);
    if k < |most| {
      AbsorbedIsRecorded(slots, most, k);
      AbsorbedAllGrows(before, [events[|events| - 1]]);
      assert AbsorbedAll(before, [events[|events| - 1]]) == Absorbed(before, events[|events| - 1]);
    } else {
      AbsorbedReachesOne(before, events[k], events[k].0);
      AbsorbedTells(before[events[k].0], events[k].1);
    }
  }

  lemma {:induction false} RetiringGrows(
    slots: seq<Slot>, names: seq<string>, drained: nat -> seq<Tagged>, m: nat, n: nat)
    requires m <= n <= |slots|
    ensures Grows(Retiring(slots, names, drained, m), Retiring(slots, names, drained, n))
    decreases n
  {
    if m < n {
      RetiringGrows(slots, names, drained, m, n - 1);
      AbsorbedAllGrows(Retiring(slots, names, drained, n - 1), drained(n - 1));
    }
  }

  // No outcome is lost while an adapter winds down: what it or a neighbour still reports for an Agent that
  // is not gone yet is recorded on it.
  lemma DrainedOutcomesAreKept(slots: seq<Slot>, names: seq<string>, drained: nat -> seq<Tagged>, i: nat, k: nat)
    requires i < |slots| && Leaving(slots[i], names) && slots[i].commands && k < |drained(i)|
    requires var (j, event) := drained(i)[k];
             && j < |slots| && Live(slots[j]) && (j < i ==> !Leaving(slots[j], names)) && event.PackageApplied?
    ensures var (j, event) := drained(i)[k];
            (event.hash, event.result) in Retiring(slots, names, drained, |slots|)[j].agent.outcomes
  {
    var before := Retiring(slots, names, drained, i);
    RetiringKeeps(slots, names, drained, i);
    AbsorbedIsRecorded(before, drained(i), k);
    RetiringGrows(slots, names, drained, i + 1, |slots|);
    var j := drained(i)[k].0;
    assert Retiring(slots, names, drained, i + 1)[j].agent.outcomes
        == AbsorbedAll(before, drained(i))[j].agent.outcomes;
  }
}
