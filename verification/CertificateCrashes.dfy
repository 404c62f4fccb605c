/**
 The certificate swap at the grain of single system calls: a crash may fall between any two of
 them, and inside a write. Every such run is a run of whole actions (`CertificateSwap`), so the
 swap stays safe; and the methods that carry it out make exactly these calls.
 */
module CertificateCrashes {
  import opened Outcomes
  import opened HeldDirectory
  import opened CertificateSwap

  // ---- Runs of system calls refine runs of actions --------------------------------------------

  function OperationCalls(certifies: Certifies, d: Files, op: Operation): seq<Step> {
    AllCalls(Actions(certifies, d, op))
  }

  // An event at this grain. An operation that fails in a write also removes the write's temporary,
  // best effort: `cleaned` are the temporaries that go.
  datatype CallEvent = CallEvent(event: Event, cleaned: set<string>)

  predicate CallPossible(certifies: Certifies, s: System, e: CallEvent) {
    && Enabled(s, e.event, |OperationCalls(certifies, s.files, e.event.op)|)
    && forall name | name in e.cleaned :: IsTemporary(name)
  }

  function CallNext(certifies: Certifies, s: System, e: CallEvent): System
    requires CallPossible(certifies, s, e)
  {
    System(Leaves(s.files, OperationCalls(certifies, s.files, e.event.op), e.event.outcome, e.cleaned),
           Serving(s, e.event))
  }

  // What calls cut by an outcome leave, less the temporaries that go.
  function Leaves(d: Files, calls: seq<Step>, outcome: Outcome, cleaned: set<string>): Files
    requires outcome.Done? || outcome.after <= |calls|
  {
    Exec(d, Performed(calls, outcome)) - cleaned
  }

  predicate CallRun(certifies: Certifies, s: System, events: seq<CallEvent>)
    decreases |events|
  {
    events != [] ==>
      CallPossible(certifies, s, events[0]) && CallRun(certifies, CallNext(certifies, s, events[0]), events[1..])
  }

  function CallAfter(certifies: Certifies, s: System, events: seq<CallEvent>): System
    requires CallRun(certifies, s, events)
    decreases |events|
  {
    if events == [] then s else CallAfter(certifies, CallNext(certifies, s, events[0]), events[1..])
  }

  // An error right after the rename that puts the key in force, in a process that goes on.
  predicate CallFailsMidSwap(certifies: Certifies, s: System, e: CallEvent) {
    && e.event.outcome.Failed? && s.serving
    && StopsAfterKey(OperationCalls(certifies, s.files, e.event.op), e.event.outcome.after)
  }

  predicate StopsAfterKey(calls: seq<Step>, after: nat) {
    0 < after <= |calls| && calls[after - 1] == Rename(PENDING_KEY, ISSUED_KEY)
  }

  predicate NoCallFailsMidSwap(certifies: Certifies, s: System, events: seq<CallEvent>)
    requires CallRun(certifies, s, events)
    decreases |events|
  {
    events != [] ==>
      && !CallFailsMidSwap(certifies, s, events[0])
      && NoCallFailsMidSwap(certifies, CallNext(certifies, s, events[0]), events[1..])
  }

  // The directory without its temporaries.
  function Whole(s: System): System {
    System(Lasting(s.files), s.serving)
  }

  // No operation reads or names a temporary.
  lemma ActionsIgnoreTemporaries(certifies: Certifies, d: Files, op: Operation)
    ensures Actions(certifies, Lasting(d), op) == Actions(certifies, d, op)
    ensures forall i | 0 <= i < |Actions(certifies, d, op)| :: Actions(certifies, d, op)[i].Lasting()
  {
    match op
    case Recover(tidied) => RecoverIgnoresTemporaries(certifies, Lasting(d), d, tidied);
    case Request(due, key, csr) => NamesDiffer();
    case Accept(cert, tidied) =>
      RecoverIgnoresTemporaries(certifies, Lasting(d)[PENDING_CERT := cert], d[PENDING_CERT := cert], tidied);
  }

  lemma RecoverIgnoresTemporaries(certifies: Certifies, was: Files, now: Files, tidied: bool)
    ensures Lasting(was) == Lasting(now) ==>
              RecoverActions(certifies, was, tidied) == RecoverActions(certifies, now, tidied)
    ensures forall i | 0 <= i < |RecoverActions(certifies, now, tidied)| ::
              RecoverActions(certifies, now, tidied)[i].Lasting()
    ensures !IsTemporary(PENDING_CERT) && !IsTemporary(PENDING_KEY)
  {
    NamesDiffer();
    if Lasting(was) == Lasting(now) {
      SameLasting(was, now, PENDING_CERT);
      SameLasting(was, now, PENDING_KEY);
      SameLasting(was, now, ISSUED_KEY);
    }
  }

  lemma SameLasting(was: Files, now: Files, name: string)
    requires Lasting(was) == Lasting(now) && !IsTemporary(name)
    ensures (name in was <==> name in now) && (name in was ==> was[name] == now[name])
  {
    assert name in Lasting(was) <==> name in was;
    assert name in Lasting(now) <==> name in now;
    assert name in was ==> Lasting(was)[name] == was[name] && Lasting(now)[name] == now[name];
  }

  // After the key's rename the certificate's is the very next call.
  lemma MidSwapIsOneCall(certifies: Certifies, d: Files, op: Operation, j: nat)
    requires 0 < j < |Actions(certifies, d, op)|
    requires Actions(certifies, d, op)[j - 1] == Move(PENDING_KEY, ISSUED_KEY)
    ensures |Calls(Actions(certifies, d, op)[j])| == 1
  {
  }

  // The event over whole actions that an event over system calls amounts to.
  function WholeEvent(certifies: Certifies, s: System, e: CallEvent): Event
    requires CallPossible(certifies, s, e)
  {
    var actions := Actions(certifies, s.files, e.event.op);
    match e.event.outcome
    case Done => e.event
    case Crashed(k) => e.event.(outcome := Crashed(CutPoint(actions, k)))
    case Failed(k) => e.event.(outcome := Outcome.Failed(CutPoint(actions, k)))
  }

  lemma CallRefines(certifies: Certifies, s: System, e: CallEvent)
    requires CallPossible(certifies, s, e)
    ensures Possible(certifies, Whole(s), WholeEvent(certifies, s, e))
    ensures Next(certifies, Whole(s), WholeEvent(certifies, s, e)) == Whole(CallNext(certifies, s, e))
  {
    ActionsIgnoreTemporaries(certifies, s.files, e.event.op);
    var actions := Actions(certifies, s.files, e.event.op);
    var calls := AllCalls(actions);
    var k := if e.event.outcome.Done? then |calls| else e.event.outcome.after;
    CallsRefineActions(s.files, actions, k);
    assert Performed(calls, e.event.outcome) == calls[..k];
    assert Performed(actions, WholeEvent(certifies, s, e).outcome) == actions[..CutPoint(actions, k)];
    CleaningLasts(Exec(s.files, calls[..k]), e.cleaned);
  }

  lemma CleaningLasts(d: Files, cleaned: set<string>)
    requires forall name | name in cleaned :: IsTemporary(name)
    ensures Lasting(d - cleaned) == Lasting(d)
  {
  }

  lemma LastCall(actions: seq<Action>)
    requires actions != [] && actions[|actions| - 1].Move?
    ensures var calls, last := AllCalls(actions), actions[|actions| - 1];
            calls != [] && calls[|calls| - 1] == Rename(last.name, last.to)
  {
  }

  // A cut right after a move, before an action of one call, is a cut right after its rename.
  lemma CutAfterMove(actions: seq<Action>, k: nat, j: nat)
    requires k <= |AllCalls(actions)| && j == CutPoint(actions, k)
    requires 0 < j <= |actions| && actions[j - 1].Move? && (j < |actions| ==> |Calls(actions[j])| == 1)
    ensures k > 0 && AllCalls(actions)[k - 1] == Rename(actions[j - 1].name, actions[j - 1].to)
  {
    CutPointBounds(actions, k);
    assert j == |actions| ==> actions[..j] == actions;
    LastCall(actions[..j]);
  }

  lemma MidSwapRefines(certifies: Certifies, d: Files, op: Operation, k: nat)
    requires k <= |OperationCalls(certifies, d, op)|
    requires StopsMidSwap(Actions(certifies, d, op), CutPoint(Actions(certifies, d, op), k))
    ensures StopsAfterKey(OperationCalls(certifies, d, op), k)
  {
    var actions := Actions(certifies, d, op);
    var j := CutPoint(actions, k);
    if j < |actions| {
      MidSwapIsOneCall(certifies, d, op, j);
    }
    CutAfterMove(actions, k, j);
  }

  // Every run of system calls is, temporaries aside, a run of whole actions.
  lemma {:induction false} CallRunRefines(certifies: Certifies, s: System, events: seq<CallEvent>)
    returns (whole: seq<Event>)
    requires CallRun(certifies, s, events)
    ensures Run(certifies, Whole(s), whole)
    ensures After(certifies, Whole(s), whole) == Whole(CallAfter(certifies, s, events))
    ensures NoCallFailsMidSwap(certifies, s, events) ==> NoFailureMidSwap(certifies, Whole(s), whole)
    decreases |events|
  {
    if events == [] {
      return [];
    }
    CallRefines(certifies, s, events[0]);
    var first := WholeEvent(certifies, s, events[0]);
    if FailsMidSwap(certifies, Whole(s), first) {
      ActionsIgnoreTemporaries(certifies, s.files, first.op);
      MidSwapRefines(certifies, s.files, first.op, events[0].event.outcome.after);
    }
    var rest := CallRunRefines(certifies, CallNext(certifies, s, events[0]), events[1..]);
    whole := [first] + rest;
    assert whole[1..] == rest;
  }

  // ---- The swap, call by call -----------------------------------------------------------------

  // The first action is done exactly when all of its calls are.
  lemma {:induction false} FirstDone(actions: seq<Action>, k: nat)
    requires k <= |AllCalls(actions)|
    ensures CutPoint(actions, k) > 0 <==> actions != [] && k >= |Calls(actions[0])|
    ensures actions != [] ==> |Calls(actions[0])| <= |AllCalls(actions)|
    decreases |actions|
  {
    if |actions| == 1 {
      assert actions[..0] == [] && AllCalls(actions) == Calls(actions[0]);
    } else if |actions| > 1 {
      var most := actions[..|actions| - 1];
      assert most[0] == actions[0];
      FirstDone(most, if k < |AllCalls(most)| then k else |AllCalls(most)|);
    }
  }

  predicate CallBegun(actions: seq<Action>, outcome: Outcome) {
    outcome.Done? || (actions != [] && outcome.after >= |Calls(actions[0])|)
  }

  // The condition of `Tears`, on the calls made.
  predicate CallTears(certifies: Certifies, s: System, e: CallEvent) {
    Tears(certifies, s.files, e.event.op, CallBegun(Actions(certifies, s.files, e.event.op), e.event.outcome))
  }

  lemma StateIgnoresTemporaries(certifies: Certifies, d: Files)
    ensures PairOk(certifies, Lasting(d)) <==> PairOk(certifies, d)
    ensures Healable(certifies, Lasting(d)) <==> Healable(certifies, d)
  {
    NamesDiffer();
  }

  lemma TearsIgnoresTemporaries(certifies: Certifies, d: Files, op: Operation, begun: bool)
    ensures Tears(certifies, Lasting(d), op, begun) <==> Tears(certifies, d, op, begun)
  {
    NamesDiffer();
    StateIgnoresTemporaries(certifies, d);
    ActionsIgnoreTemporaries(certifies, d, op);
  }

  lemma WholeEventTearsAlike(certifies: Certifies, s: System, e: CallEvent)
    requires CallPossible(certifies, s, e)
    ensures var whole := WholeEvent(certifies, s, e);
            Tears(certifies, Whole(s).files, whole.op, Begun(whole.outcome)) <==> CallTears(certifies, s, e)
  {
    var actions := Actions(certifies, s.files, e.event.op);
    TearsIgnoresTemporaries(certifies, s.files, e.event.op, CallBegun(actions, e.event.outcome));
    if !e.event.outcome.Done? {
      FirstDone(actions, e.event.outcome.after);
    }
  }

  lemma CallHealsExactlyWhen(certifies: Certifies, s: System, e: CallEvent)
    requires CallPossible(certifies, s, e) && Healable(certifies, s.files)
    ensures Healable(certifies, CallNext(certifies, s, e).files) <==> !CallTears(certifies, s, e)
  {
    CallRefines(certifies, s, e);
    WholeEventTearsAlike(certifies, s, e);
    StateIgnoresTemporaries(certifies, s.files);
    StateIgnoresTemporaries(certifies, CallNext(certifies, s, e).files);
    EventHealsExactlyWhen(certifies, Whole(s), WholeEvent(certifies, s, e));
  }

  predicate NoCallTears(certifies: Certifies, s: System, events: seq<CallEvent>)
    requires CallRun(certifies, s, events)
    decreases |events|
  {
    events != [] ==>
      !CallTears(certifies, s, events[0]) && NoCallTears(certifies, CallNext(certifies, s, events[0]), events[1..])
  }

  predicate AlwaysHealableByCalls(certifies: Certifies, s: System, events: seq<CallEvent>)
    requires CallRun(certifies, s, events)
    decreases |events|
  {
    && Healable(certifies, s.files)
    && (events != [] ==> AlwaysHealableByCalls(certifies, CallNext(certifies, s, events[0]), events[1..]))
  }

  // Over every run of system calls: a recovery would make the pair whole at every moment exactly
  // when no event tears.
  lemma {:induction false} CallRunHealsExactlyWhen(certifies: Certifies, s: System, events: seq<CallEvent>)
    requires CallRun(certifies, s, events) && Healable(certifies, s.files)
    ensures AlwaysHealableByCalls(certifies, s, events) <==> NoCallTears(certifies, s, events)
    decreases |events|
  {
    if events != [] {
      var next := CallNext(certifies, s, events[0]);
      CallHealsExactlyWhen(certifies, s, events[0]);
      if Healable(certifies, next.files) {
        CallRunHealsExactlyWhen(certifies, next, events[1..]);
      }
    }
  }

  // Whether an error has stopped a swap right after its key since the last completed recovery.
  predicate CallStopped(certifies: Certifies, s: System, stopped: bool, events: seq<CallEvent>)
    requires CallRun(certifies, s, events)
    decreases |events|
  {
    if events == [] then stopped
    else
      var now := StillStopped(stopped, CallFailsMidSwap(certifies, s, events[0]), events[0].event);
      CallStopped(certifies, CallNext(certifies, s, events[0]), now, events[1..])
  }

  lemma CallKeepsSafe(certifies: Certifies, s: System, stopped: bool, e: CallEvent)
    requires Safe(certifies, s, stopped) && CallPossible(certifies, s, e) && !CallTears(certifies, s, e)
    ensures var now := StillStopped(stopped, CallFailsMidSwap(certifies, s, e), e.event);
            Safe(certifies, CallNext(certifies, s, e), now)
  {
    var whole := WholeEvent(certifies, s, e);
    CallRefines(certifies, s, e);
    WholeEventTearsAlike(certifies, s, e);
    StateIgnoresTemporaries(certifies, s.files);
    StateIgnoresTemporaries(certifies, CallNext(certifies, s, e).files);
    StepKeepsSafe(certifies, Whole(s), stopped, whole);
    if FailsMidSwap(certifies, Whole(s), whole) {
      ActionsIgnoreTemporaries(certifies, s.files, whole.op);
      MidSwapRefines(certifies, s.files, whole.op, e.event.outcome.after);
    }
  }

  // Over every run in which each process first completes its recovery, then requests and accepts
  // certificates of any content, and may crash or fail between any two system calls, and in which
  // nothing tears: a process that has recovered sees no certificate in force or one that certifies
  // the key in force, unless an error stopped a swap right after its key since; and a recovery
  // makes the pair whole at every moment.
  lemma {:induction false} SwapIsCrashSafe(certifies: Certifies, s: System, stopped: bool, events: seq<CallEvent>)
    requires Safe(certifies, s, stopped)
    requires CallRun(certifies, s, events) && NoCallTears(certifies, s, events)
    ensures Safe(certifies, CallAfter(certifies, s, events), CallStopped(certifies, s, stopped, events))
    decreases |events|
  {
    if events != [] {
      CallKeepsSafe(certifies, s, stopped, events[0]);
      var now := StillStopped(stopped, CallFailsMidSwap(certifies, s, events[0]), events[0].event);
      SwapIsCrashSafe(certifies, CallNext(certifies, s, events[0]), now, events[1..]);
    }
  }

  // And where no error falls right after the key of a running process, nothing can tear at all: a
  // process that has recovered always sees a whole pair.
  lemma CrashesAloneAreSafe(certifies: Certifies, s: System, events: seq<CallEvent>)
    requires Invariant(certifies, s)
    requires CallRun(certifies, s, events) && NoCallFailsMidSwap(certifies, s, events)
    ensures Invariant(certifies, CallAfter(certifies, s, events))
  {
    var whole := CallRunRefines(certifies, s, events);
    InvariantIgnoresTemporaries(certifies, s);
    NoErrorNoTear(certifies, Whole(s), whole);
    InvariantIgnoresTemporaries(certifies, CallAfter(certifies, s, events));
  }

  lemma InvariantIgnoresTemporaries(certifies: Certifies, s: System)
    ensures Invariant(certifies, Whole(s)) <==> Invariant(certifies, s)
  {
    NamesDiffer();
  }

  // An accepted certificate, cut between any two system calls or inside its write, and recovered
  // by recoveries that are themselves cut any number of times: before its file is renamed into
  // place what is in force is what it would have been without it, and from then on what the uncut
  // accept puts in force.
  lemma AcceptSurvivesCrash(
    certifies: Certifies, d: Files, cert: Bytes, tidied: bool, k: nat, cuts: seq<(bool, nat)>, again: bool)
    requires k <= |OperationCalls(certifies, d, Accept(cert, tidied))|
    ensures var cut := Exec(d, OperationCalls(certifies, d, Accept(cert, tidied))[..k]);
            var found := InForce(Recovered(certifies, CutRecoveries(certifies, Lasting(cut), cuts), again));
            found == if k < |WriteSteps(PENDING_CERT, cert)| then InForce(Recovered(certifies, Lasting(d), tidied))
                     else InForce(Perform(Lasting(d), AcceptActions(certifies, Lasting(d), cert, tidied)))
  {
    ActionsIgnoreTemporaries(certifies, d, Accept(cert, tidied));
    var actions := AcceptActions(certifies, d, cert, tidied);
    CallsRefineActions(d, actions, k);
    FirstDone(actions, k);
    var j := CutPoint(actions, k);
    AcceptIsAtomic(certifies, Lasting(d), cert, tidied, again, j);
    RecoveryConverges(certifies, Perform(Lasting(d), actions[..j]), cuts, again, again);
  }
}
