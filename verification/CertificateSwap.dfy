/**
 Putting an issued certificate in force beside its key (`csr.rs`). No single call
 replaces both files, so the swap is a protocol: stage the certificate, move the key, move the
 certificate, and let `recover` finish what was interrupted.

 The protocol is first proved over whole actions (an atomic put, a move, a removal); every run of
 single system calls is then shown to be a run of whole actions, so the theorems carry over.
 */
module CertificateSwap {
  import opened Outcomes
  import opened HeldDirectory
  import opened Text

  const ISSUED_CERT := "client-cert.pem"
  const ISSUED_KEY := "client-key.pem"
  const PENDING_KEY := "client-key.pending.pem"
  const PENDING_CERT := "client-cert.pending.pem"
  const PENDING_CSR := "client-csr.pending.pem"

  // Whether a certificate is issued for a private key: X.509 and key parsing stay abstract.
  type Certifies = (Bytes, Bytes) -> bool

  predicate CertifiesFile(certifies: Certifies, d: Files, cert: Bytes, keyName: string) {
    keyName in d && certifies(cert, d[keyName])
  }

  // ---- What each operation does to the directory ----------------------------------------------

  // The request is answered once its key is in force. The removal is best effort: `tidied` says
  // whether it worked.
  function Tidy(tidied: bool): seq<Action> {
    if tidied then [Drop(PENDING_CSR)] else []
  }

  function RecoverActions(certifies: Certifies, d: Files, tidied: bool): seq<Action> {
    if PENDING_CERT !in d then
      []
    else if CertifiesFile(certifies, d, d[PENDING_CERT], PENDING_KEY) then
      [Move(PENDING_KEY, ISSUED_KEY), Move(PENDING_CERT, ISSUED_CERT)] + Tidy(tidied)
    else if CertifiesFile(certifies, d, d[PENDING_CERT], ISSUED_KEY) then
      [Move(PENDING_CERT, ISSUED_CERT)] + (if PENDING_KEY in d then [] else Tidy(tidied))
    else
      [Drop(PENDING_CERT)]
  }

  // Nothing happens unless a key is pending.
  function AcceptActions(certifies: Certifies, d: Files, cert: Bytes, tidied: bool): seq<Action> {
    if PENDING_KEY !in d then []
    else [Put(PENDING_CERT, cert)] + RecoverActions(certifies, d[PENDING_CERT := cert], tidied)
  }

  // `due` is the judgement of the certificate in force: due for renewal, or unreadable.
  predicate NeedsCertificate(d: Files, due: bool) {
    ISSUED_CERT !in d || ISSUED_KEY !in d || due
  }

  // Two puts, the key first, unless both files of an earlier request are there.
  function RequestActions(d: Files, due: bool, key: Bytes, csr: Bytes): seq<Action> {
    if !NeedsCertificate(d, due) || (PENDING_KEY in d && PENDING_CSR in d) then []
    else [Put(PENDING_KEY, key), Put(PENDING_CSR, csr)]
  }

  datatype Operation =
    | Recover(tidied: bool)
    | Request(due: bool, key: Bytes, csr: Bytes)
    | Accept(cert: Bytes, tidied: bool)

  function Actions(certifies: Certifies, d: Files, op: Operation): seq<Action> {
    match op
    case Recover(tidied) => RecoverActions(certifies, d, tidied)
    case Request(due, key, csr) => RequestActions(d, due, key, csr)
    case Accept(cert, tidied) => AcceptActions(certifies, d, cert, tidied)
  }

  function Recovered(certifies: Certifies, d: Files, tidied: bool): Files {
    Perform(d, RecoverActions(certifies, d, tidied))
  }

  // ---- What is in force -----------------------------------------------------------------------

  // No certificate in force, or one that certifies the key in force: never a mixed pair.
  predicate PairOk(certifies: Certifies, d: Files) {
    ISSUED_CERT in d ==> CertifiesFile(certifies, d, d[ISSUED_CERT], ISSUED_KEY)
  }

  // The swap stopped between its two moves: only the certificate still has to move.
  predicate Completable(certifies: Certifies, d: Files) {
    PENDING_CERT in d && CertifiesFile(certifies, d, d[PENDING_CERT], ISSUED_KEY)
  }

  function InForce(d: Files): (Option<Bytes>, Option<Bytes>) {
    (Get(d, ISSUED_CERT), Get(d, ISSUED_KEY))
  }

  lemma NamesDiffer()
    ensures ISSUED_CERT != ISSUED_KEY && ISSUED_CERT != PENDING_KEY && ISSUED_CERT != PENDING_CERT
    ensures ISSUED_CERT != PENDING_CSR && ISSUED_KEY != PENDING_KEY && ISSUED_KEY != PENDING_CERT
    ensures ISSUED_KEY != PENDING_CSR && PENDING_KEY != PENDING_CERT && PENDING_KEY != PENDING_CSR
    ensures PENDING_CERT != PENDING_CSR
    ensures !IsTemporary(ISSUED_CERT) && !IsTemporary(ISSUED_KEY) && !IsTemporary(PENDING_KEY)
    ensures !IsTemporary(PENDING_CERT) && !IsTemporary(PENDING_CSR)
    ensures PlainName(PENDING_KEY) && PlainName(PENDING_CERT) && PlainName(PENDING_CSR)
  {
    assert ISSUED_CERT[7] == 'c' && PENDING_CERT[7] == 'c' && ISSUED_KEY[7] == 'k' && PENDING_KEY[7] == 'k';
    assert PENDING_CERT[8] == 'e' && PENDING_CSR[8] == 's' && ISSUED_CERT[12] == 'p';
  }

  // Lists of at most four actions, performed one by one.
  lemma PerformOne(d: Files, a: Action)
    ensures Perform(d, [a]) == Act(d, a)
  {
    assert [a][..0] == [];
  }

  lemma PerformTwo(d: Files, a: Action, b: Action)
    ensures Perform(d, [a, b]) == Act(Act(d, a), b)
  {
    assert [a, b][..1] == [a];
    PerformOne(d, a);
  }

  lemma PerformThree(d: Files, a: Action, b: Action, c: Action)
    ensures Perform(d, [a, b, c]) == Act(Act(Act(d, a), b), c)
  {
    assert [a, b, c][..2] == [a, b];
    PerformTwo(d, a, b);
  }

  // Every state a recovery passes through, for each of its prefixes.
  lemma RecoverStates(certifies: Certifies, d: Files, tidied: bool, k: nat)
    requires k <= |RecoverActions(certifies, d, tidied)|
    ensures var actions := RecoverActions(certifies, d, tidied);
            Perform(d, actions[..k]) ==
              if k == 0 then d
              else if k == 1 then Act(d, actions[0])
              else if k == 2 then Act(Act(d, actions[0]), actions[1])
              else Act(Act(Act(d, actions[0]), actions[1]), actions[2])
  {
    var actions := RecoverActions(certifies, d, tidied);
    if k == 1 {
      assert actions[..k] == [actions[0]];
      PerformOne(d, actions[0]);
    } else if k == 2 {
      assert actions[..k] == [actions[0], actions[1]];
      PerformTwo(d, actions[0], actions[1]);
    } else if k == 3 {
      assert actions[..k] == [actions[0], actions[1], actions[2]];
      PerformThree(d, actions[0], actions[1], actions[2]);
    }
  }

  // ---- Recovery, cut and repeated -------------------------------------------------------------

  // The pair in force after a completed recovery: what is staged with whichever key it is for, the
  // pending one preferred, or the pair of before when it is for neither.
  function Verdict(certifies: Certifies, d: Files): (Option<Bytes>, Option<Bytes>) {
    if PENDING_CERT in d && CertifiesFile(certifies, d, d[PENDING_CERT], PENDING_KEY) then
      (Some(d[PENDING_CERT]), Some(d[PENDING_KEY]))
    else if Completable(certifies, d) then
      (Some(d[PENDING_CERT]), Some(d[ISSUED_KEY]))
    else
      InForce(d)
  }

  lemma RecoveryPutsVerdictInForce(certifies: Certifies, d: Files, tidied: bool)
    ensures InForce(Recovered(certifies, d, tidied)) == Verdict(certifies, d)
  {
    NamesDiffer();
    var actions := RecoverActions(certifies, d, tidied);
    RecoverStates(certifies, d, tidied, |actions|);
    assert actions[..|actions|] == actions;
  }

  // What a recovery leaves of the request: its key is pending no longer exactly when it went into force,
  // and its text goes once a certificate went into force with no key pending.
  lemma RecoverySettlesTheRequest(certifies: Certifies, d: Files, tidied: bool)
    ensures var now := Recovered(certifies, d, tidied);
            var forPending := PENDING_CERT in d && CertifiesFile(certifies, d, d[PENDING_CERT], PENDING_KEY);
            var forIssued := PENDING_CERT in d && CertifiesFile(certifies, d, d[PENDING_CERT], ISSUED_KEY);
            && Get(now, PENDING_KEY) == (if forPending then None else Get(d, PENDING_KEY))
            && Get(now, PENDING_CSR)
               == (if tidied && (forPending || (forIssued && PENDING_KEY !in d)) then None else Get(d, PENDING_CSR))
  {
    NamesDiffer();
    var actions := RecoverActions(certifies, d, tidied);
    RecoverStates(certifies, d, tidied, |actions|);
    assert actions[..|actions|] == actions;
  }

  lemma CutKeepsVerdict(certifies: Certifies, d: Files, tidied: bool, k: nat)
    requires k <= |RecoverActions(certifies, d, tidied)|
    ensures Verdict(certifies, Perform(d, RecoverActions(certifies, d, tidied)[..k])) == Verdict(certifies, d)
  {
    NamesDiffer();
    RecoverStates(certifies, d, tidied, k);
  }

  // A recovery cut after any action leaves a directory whose own recovery puts in force what the
  // uncut one would have.
  lemma CutRecovery(certifies: Certifies, d: Files, tidied: bool, again: bool, k: nat)
    requires k <= |RecoverActions(certifies, d, tidied)|
    ensures var cut := Perform(d, RecoverActions(certifies, d, tidied)[..k]);
            InForce(Recovered(certifies, cut, again)) == InForce(Recovered(certifies, d, tidied))
  {
    CutKeepsVerdict(certifies, d, tidied, k);
    RecoveryPutsVerdictInForce(certifies, Perform(d, RecoverActions(certifies, d, tidied)[..k]), again);
    RecoveryPutsVerdictInForce(certifies, d, tidied);
  }

  // The directory after recoveries cut short, one after the other.
  function CutRecoveries(certifies: Certifies, d: Files, cuts: seq<(bool, nat)>): Files
    decreases |cuts|
  {
    if cuts == [] then d
    else
      var actions := RecoverActions(certifies, d, cuts[0].0);
      var k := if cuts[0].1 <= |actions| then cuts[0].1 else |actions|;
      CutRecoveries(certifies, Perform(d, actions[..k]), cuts[1..])
  }

  // However often the recovery itself is cut short, the one that completes puts in force what a
  // single uncut one would have.
  lemma {:induction false} RecoveryConverges(
    certifies: Certifies, d: Files, cuts: seq<(bool, nat)>, tidied: bool, again: bool)
    ensures InForce(Recovered(certifies, CutRecoveries(certifies, d, cuts), again))
         == InForce(Recovered(certifies, d, tidied))
    decreases |cuts|
  {
    if cuts == [] {
      CutRecovery(certifies, d, tidied, again, 0);
    } else {
      var actions := RecoverActions(certifies, d, cuts[0].0);
      var k := if cuts[0].1 <= |actions| then cuts[0].1 else |actions|;
      var cut := Perform(d, actions[..k]);
      RecoveryConverges(certifies, cut, cuts[1..], tidied, again);
      CutRecovery(certifies, d, cuts[0].0, tidied, k);
      CutRecovery(certifies, d, tidied, cuts[0].0, 0);
    }
  }

  // A completed recovery leaves nothing staged, so a second one does nothing; and with nothing
  // staged the first one does nothing either, whether or not a key is pending.
  lemma RecoveryIsIdempotent(certifies: Certifies, d: Files, tidied: bool, again: bool)
    ensures PENDING_CERT !in Recovered(certifies, d, tidied)
    ensures Recovered(certifies, Recovered(certifies, d, tidied), again) == Recovered(certifies, d, tidied)
    ensures PENDING_CERT !in d ==> Recovered(certifies, d, tidied) == d
  {
    NamesDiffer();
    var actions := RecoverActions(certifies, d, tidied);
    RecoverStates(certifies, d, tidied, |actions|);
    assert actions[..|actions|] == actions;
  }

  // An accepted certificate is all or nothing under a crash: cut before it is staged, recovery
  // leaves in force what it would have left without it; cut anywhere after, what an uncut accept
  // puts in force.
  lemma AcceptIsAtomic(certifies: Certifies, d: Files, cert: Bytes, tidied: bool, again: bool, k: nat)
    requires k <= |AcceptActions(certifies, d, cert, tidied)|
    ensures var actions := AcceptActions(certifies, d, cert, tidied);
            var found := InForce(Recovered(certifies, Perform(d, actions[..k]), again));
            found == if k == 0 then InForce(Recovered(certifies, d, tidied))
                     else InForce(Perform(d, actions))
  {
    NamesDiffer();
    var actions := AcceptActions(certifies, d, cert, tidied);
    if k == 0 {
      CutRecovery(certifies, d, tidied, again, 0);
    } else {
      var staged := d[PENDING_CERT := cert];
      var rest := RecoverActions(certifies, staged, tidied);
      assert actions[..k] == [Put(PENDING_CERT, cert)] + rest[..k - 1];
      PerformConcat(d, [Put(PENDING_CERT, cert)], rest[..k - 1]);
      PerformConcat(d, [Put(PENDING_CERT, cert)], rest);
      PerformOne(d, Put(PENDING_CERT, cert));
      CutRecovery(certifies, staged, tidied, again, k - 1);
    }
  }

  // ---- Whole runs -----------------------------------------------------------------------------

  // An operation runs to its end, is cut by a crash after some of its work, or returns an error
  // after some of its work and leaves the process running.
  datatype Outcome = Done | Crashed(after: nat) | Failed(after: nat)

  datatype Event = Event(op: Operation, outcome: Outcome)

  // `serving`: the process is up and the recovery it starts with has completed.
  datatype System = System(files: Files, serving: bool)

  // A process first recovers, and only then requests and accepts.
  predicate Enabled(s: System, e: Event, work: nat) {
    && (e.op.Recover? <==> !s.serving)
    && (e.outcome.Done? || e.outcome.after <= work)
  }

  function Serving(s: System, e: Event): bool {
    e.outcome.Done? || (e.outcome.Failed? && s.serving)
  }

  function Performed<T>(all: seq<T>, outcome: Outcome): seq<T>
    requires outcome.Done? || outcome.after <= |all|
  {
    if outcome.Done? then all else all[..outcome.after]
  }

  predicate Possible(certifies: Certifies, s: System, e: Event) {
    Enabled(s, e, |Actions(certifies, s.files, e.op)|)
  }

  function Next(certifies: Certifies, s: System, e: Event): System
    requires Possible(certifies, s, e)
  {
    System(Perform(s.files, Performed(Actions(certifies, s.files, e.op), e.outcome)), Serving(s, e))
  }

  predicate Run(certifies: Certifies, s: System, events: seq<Event>)
    decreases |events|
  {
    events != [] ==> Possible(certifies, s, events[0]) && Run(certifies, Next(certifies, s, events[0]), events[1..])
  }

  function After(certifies: Certifies, s: System, events: seq<Event>): System
    requires Run(certifies, s, events)
    decreases |events|
  {
    if events == [] then s else After(certifies, Next(certifies, s, events[0]), events[1..])
  }

  // An error — not a crash — between the two moves of an accepted certificate: the key is in
  // force, its certificate is not, and the process goes on without recovering.
  predicate FailsMidSwap(certifies: Certifies, s: System, e: Event) {
    e.outcome.Failed? && s.serving && StopsMidSwap(Actions(certifies, s.files, e.op), e.outcome.after)
  }

  predicate StopsMidSwap(actions: seq<Action>, after: nat) {
    0 < after <= |actions| && actions[after - 1] == Move(PENDING_KEY, ISSUED_KEY)
  }

  predicate NoFailureMidSwap(certifies: Certifies, s: System, events: seq<Event>)
    requires Run(certifies, s, events)
    decreases |events|
  {
    events != [] ==>
      && !FailsMidSwap(certifies, s, events[0])
      && NoFailureMidSwap(certifies, Next(certifies, s, events[0]), events[1..])
  }

  // What holds at every moment: the pair is whole, or a recovery makes it whole; and a process
  // past its recovery sees a whole pair.
  predicate Invariant(certifies: Certifies, s: System) {
    && (PairOk(certifies, s.files) || Completable(certifies, s.files))
    && (s.serving ==> PairOk(certifies, s.files))
  }

  lemma RecoverKeepsInvariant(certifies: Certifies, d: Files, tidied: bool, k: nat)
    requires PairOk(certifies, d) || Completable(certifies, d)
    requires k <= |RecoverActions(certifies, d, tidied)|
    ensures var actions := RecoverActions(certifies, d, tidied);
            var cut := Perform(d, actions[..k]);
            && (PairOk(certifies, cut) || Completable(certifies, cut))
            && (k == |actions| ==> PairOk(certifies, cut))
            && (PairOk(certifies, d) && k > 0 && actions[k - 1] != Move(PENDING_KEY, ISSUED_KEY) ==>
                  PairOk(certifies, cut))
  {
    NamesDiffer();
    RecoverStates(certifies, d, tidied, k);
  }

  // A request touches neither what is in force nor what is staged, and its key is on disk before
  // its text.
  lemma RequestKeepsInvariant(certifies: Certifies, d: Files, due: bool, key: Bytes, csr: Bytes, k: nat)
    requires k <= |RequestActions(d, due, key, csr)|
    ensures var cut := Perform(d, RequestActions(d, due, key, csr)[..k]);
            && InForce(cut) == InForce(d) && Get(cut, PENDING_CERT) == Get(d, PENDING_CERT)
            && (Get(cut, PENDING_CSR) != Get(d, PENDING_CSR) ==> Get(cut, PENDING_KEY) == Some(key))
  {
    NamesDiffer();
    var actions := RequestActions(d, due, key, csr);
    if k == 1 {
      assert actions[..k] == [Put(PENDING_KEY, key)];
      PerformOne(d, Put(PENDING_KEY, key));
    } else if k == 2 {
      assert actions[..k] == actions;
      PerformTwo(d, Put(PENDING_KEY, key), Put(PENDING_CSR, csr));
    }
  }

  lemma AcceptKeepsInvariant(certifies: Certifies, d: Files, cert: Bytes, tidied: bool, k: nat)
    requires PairOk(certifies, d)
    requires k <= |AcceptActions(certifies, d, cert, tidied)|
    ensures var actions := AcceptActions(certifies, d, cert, tidied);
            var cut := Perform(d, actions[..k]);
            && (PairOk(certifies, cut) || Completable(certifies, cut))
            && (k == |actions| ==> PairOk(certifies, cut))
            && (k > 0 && actions[k - 1] != Move(PENDING_KEY, ISSUED_KEY) ==> PairOk(certifies, cut))
  {
    NamesDiffer();
    var actions := AcceptActions(certifies, d, cert, tidied);
    if k > 0 {
      var staged := d[PENDING_CERT := cert];
      var rest := RecoverActions(certifies, staged, tidied);
      assert actions[..k] == [Put(PENDING_CERT, cert)] + rest[..k - 1];
      PerformConcat(d, [Put(PENDING_CERT, cert)], rest[..k - 1]);
      PerformOne(d, Put(PENDING_CERT, cert));
      RecoverKeepsInvariant(certifies, staged, tidied, k - 1);
      assert k > 1 ==> actions[k - 1] == rest[k - 2];
    }
  }

  lemma StepKeepsInvariant(certifies: Certifies, s: System, e: Event)
    requires Invariant(certifies, s)
    requires Possible(certifies, s, e) && !FailsMidSwap(certifies, s, e)
    ensures Invariant(certifies, Next(certifies, s, e))
  {
    var actions := Actions(certifies, s.files, e.op);
    var k := if e.outcome.Done? then |actions| else e.outcome.after;
    assert Performed(actions, e.outcome) == actions[..k];
    match e.op
    case Recover(tidied) => RecoverKeepsInvariant(certifies, s.files, tidied, k);
    case Request(due, key, csr) => RequestKeepsInvariant(certifies, s.files, due, key, csr, k);
    case Accept(cert, tidied) =>
      AcceptKeepsInvariant(certifies, s.files, cert, tidied, k);
      assert k > 0 ==> actions[..k][k - 1] == actions[k - 1];
  }

  // ---- Which runs heal ------------------------------------------------------------------------

  // The pair is whole, or what is staged belongs to a key that is here.
  predicate Healable(certifies: Certifies, d: Files) {
    || PairOk(certifies, d)
    || (PENDING_CERT in d && (|| CertifiesFile(certifies, d, d[PENDING_CERT], PENDING_KEY)
                              || CertifiesFile(certifies, d, d[PENDING_CERT], ISSUED_KEY)))
  }

  // Exactly then does a recovery end in a whole pair.
  lemma RecoveryHealsExactlyWhen(certifies: Certifies, d: Files, tidied: bool)
    ensures PairOk(certifies, Recovered(certifies, d, tidied)) <==> Healable(certifies, d)
  {
    NamesDiffer();
    RecoveryPutsVerdictInForce(certifies, d, tidied);
    SameInForce(certifies, Recovered(certifies, d, tidied), Verdict(certifies, d));
  }

  lemma SameInForce(certifies: Certifies, d: Files, pair: (Option<Bytes>, Option<Bytes>))
    requires InForce(d) == pair
    ensures PairOk(certifies, d) <==> (pair.0.Some? ==> pair.1.Some? && certifies(pair.0.value, pair.1.value))
  {
  }

  // What loses the way back from a torn pair: a certificate for neither key staged over the one to
  // finish, or a new pending key written over the one it belongs to. `begun` says that the first
  // file has been put.
  predicate Tears(certifies: Certifies, d: Files, op: Operation, begun: bool) {
    && begun && !PairOk(certifies, d) && Actions(certifies, d, op) != []
    && match op
       case Recover(_) => false
       case Request(_, key, _) =>
         !(PENDING_CERT in d && (|| certifies(d[PENDING_CERT], key)
                                 || CertifiesFile(certifies, d, d[PENDING_CERT], ISSUED_KEY)))
       case Accept(cert, _) =>
         !CertifiesFile(certifies, d, cert, PENDING_KEY) && !CertifiesFile(certifies, d, cert, ISSUED_KEY)
  }

  predicate Begun(outcome: Outcome) {
    outcome.Done? || outcome.after > 0
  }

  // Cutting a recovery leaves a directory that heals exactly when the one before did.
  lemma CutHealsAlike(certifies: Certifies, d: Files, tidied: bool, k: nat)
    requires k <= |RecoverActions(certifies, d, tidied)|
    ensures Healable(certifies, Perform(d, RecoverActions(certifies, d, tidied)[..k])) <==> Healable(certifies, d)
  {
    var cut := Perform(d, RecoverActions(certifies, d, tidied)[..k]);
    CutRecovery(certifies, d, tidied, tidied, k);
    RecoveryHealsExactlyWhen(certifies, d, tidied);
    RecoveryHealsExactlyWhen(certifies, cut, tidied);
    SameInForce(certifies, Recovered(certifies, cut, tidied), InForce(Recovered(certifies, cut, tidied)));
    SameInForce(certifies, Recovered(certifies, d, tidied), InForce(Recovered(certifies, cut, tidied)));
  }

  lemma AcceptHealsExactlyWhen(certifies: Certifies, d: Files, cert: Bytes, tidied: bool, k: nat)
    requires Healable(certifies, d) && k <= |AcceptActions(certifies, d, cert, tidied)|
    ensures Healable(certifies, Perform(d, AcceptActions(certifies, d, cert, tidied)[..k]))
       <==> !Tears(certifies, d, Accept(cert, tidied), k > 0)
  {
    NamesDiffer();
    if k > 0 {
      var staged := d[PENDING_CERT := cert];
      var rest := RecoverActions(certifies, staged, tidied);
      assert AcceptActions(certifies, d, cert, tidied)[..k] == [Put(PENDING_CERT, cert)] + rest[..k - 1];
      PerformConcat(d, [Put(PENDING_CERT, cert)], rest[..k - 1]);
      PerformOne(d, Put(PENDING_CERT, cert));
      CutHealsAlike(certifies, staged, tidied, k - 1);
    }
  }

  lemma RequestHealsExactlyWhen(certifies: Certifies, d: Files, due: bool, key: Bytes, csr: Bytes, k: nat)
    requires Healable(certifies, d) && k <= |RequestActions(d, due, key, csr)|
    ensures Healable(certifies, Perform(d, RequestActions(d, due, key, csr)[..k]))
       <==> !Tears(certifies, d, Request(due, key, csr), k > 0)
  {
    NamesDiffer();
    var actions := RequestActions(d, due, key, csr);
    if k == 1 {
      assert actions[..k] == [Put(PENDING_KEY, key)];
      PerformOne(d, Put(PENDING_KEY, key));
    } else if k == 2 {
      assert actions[..k] == actions;
      PerformTwo(d, Put(PENDING_KEY, key), Put(PENDING_CSR, csr));
    }
  }

  // One event, whatever its outcome: the way back is kept exactly when it does not tear.
  lemma EventHealsExactlyWhen(certifies: Certifies, s: System, e: Event)
    requires Possible(certifies, s, e) && Healable(certifies, s.files)
    ensures Healable(certifies, Next(certifies, s, e).files) <==> !Tears(certifies, s.files, e.op, Begun(e.outcome))
  {
    var actions := Actions(certifies, s.files, e.op);
    var k := if e.outcome.Done? then |actions| else e.outcome.after;
    assert Performed(actions, e.outcome) == actions[..k];
    match e.op
    case Recover(tidied) => CutHealsAlike(certifies, s.files, tidied, k);
    case Request(due, key, csr) => RequestHealsExactlyWhen(certifies, s.files, due, key, csr, k);
    case Accept(cert, tidied) => AcceptHealsExactlyWhen(certifies, s.files, cert, tidied, k);
  }

  predicate NothingTears(certifies: Certifies, s: System, events: seq<Event>)
    requires Run(certifies, s, events)
    decreases |events|
  {
    events != [] ==>
      && !Tears(certifies, s.files, events[0].op, Begun(events[0].outcome))
      && NothingTears(certifies, Next(certifies, s, events[0]), events[1..])
  }

  // At every moment of the run a recovery would end in a whole pair.
  predicate AlwaysHealable(certifies: Certifies, s: System, events: seq<Event>)
    requires Run(certifies, s, events)
    decreases |events|
  {
    && Healable(certifies, s.files)
    && (events != [] ==> AlwaysHealable(certifies, Next(certifies, s, events[0]), events[1..]))
  }

  // Every recovery of the run that completes ends in a whole pair.
  predicate RecoveriesEndWhole(certifies: Certifies, s: System, events: seq<Event>)
    requires Run(certifies, s, events)
    decreases |events|
  {
    events != [] ==>
      && var next := Next(certifies, s, events[0]);
      && (events[0].op.Recover? && events[0].outcome.Done? ==> PairOk(certifies, next.files))
      && RecoveriesEndWhole(certifies, next, events[1..])
  }

  // Over every run, with crashes and errors anywhere: there is a way back to a whole pair at every
  // moment exactly when no event tears, and then every completed recovery takes it.
  lemma {:induction false} RunHealsExactlyWhen(certifies: Certifies, s: System, events: seq<Event>)
    requires Run(certifies, s, events) && Healable(certifies, s.files)
    ensures AlwaysHealable(certifies, s, events) <==> NothingTears(certifies, s, events)
    ensures NothingTears(certifies, s, events) ==> RecoveriesEndWhole(certifies, s, events)
    decreases |events|
  {
    if events != [] {
      var e := events[0];
      var next := Next(certifies, s, e);
      EventHealsExactlyWhen(certifies, s, e);
      if Healable(certifies, next.files) {
        RunHealsExactlyWhen(certifies, next, events[1..]);
      }
      if e.op.Recover? {
        RecoveryHealsExactlyWhen(certifies, s.files, e.op.tidied);
      }
    }
  }

  // A completed recovery finishes what an error stopped.
  predicate StillStopped(stopped: bool, fails: bool, e: Event) {
    fails || (stopped && !(e.op.Recover? && e.outcome.Done?))
  }

  // Whether an error has stopped a swap between its moves since the last recovery that completed.
  predicate Stopped(certifies: Certifies, s: System, stopped: bool, events: seq<Event>)
    requires Run(certifies, s, events)
    decreases |events|
  {
    if events == [] then stopped
    else
      var now := StillStopped(stopped, FailsMidSwap(certifies, s, events[0]), events[0]);
      Stopped(certifies, Next(certifies, s, events[0]), now, events[1..])
  }

  // What holds at every moment: the pair is whole or a recovery makes it whole, and a process past
  // its recovery sees a whole pair unless a swap was stopped under it.
  predicate Safe(certifies: Certifies, s: System, stopped: bool) {
    Healable(certifies, s.files) && (s.serving && !stopped ==> PairOk(certifies, s.files))
  }

  lemma StepKeepsSafe(certifies: Certifies, s: System, stopped: bool, e: Event)
    requires Safe(certifies, s, stopped) && Possible(certifies, s, e)
    requires !Tears(certifies, s.files, e.op, Begun(e.outcome))
    ensures Safe(certifies, Next(certifies, s, e), StillStopped(stopped, FailsMidSwap(certifies, s, e), e))
  {
    EventHealsExactlyWhen(certifies, s, e);
    if e.op.Recover? {
      RecoveryHealsExactlyWhen(certifies, s.files, e.op.tidied);
    } else if !stopped && !FailsMidSwap(certifies, s, e) {
      StepKeepsInvariant(certifies, s, e);
    }
  }

  // Over every run of crashes, errors, restarts, requests and accepted certificates of any content
  // in which nothing tears, a process that has recovered sees no certificate in force or one that
  // certifies the key in force, unless an error stopped a swap between its moves since; and the
  // next recovery heals that too.
  lemma {:induction false} SwapIsSafe(certifies: Certifies, s: System, stopped: bool, events: seq<Event>)
    requires Safe(certifies, s, stopped)
    requires Run(certifies, s, events) && NothingTears(certifies, s, events)
    ensures Safe(certifies, After(certifies, s, events), Stopped(certifies, s, stopped, events))
    decreases |events|
  {
    if events != [] {
      StepKeepsSafe(certifies, s, stopped, events[0]);
      var now := StillStopped(stopped, FailsMidSwap(certifies, s, events[0]), events[0]);
      SwapIsSafe(certifies, Next(certifies, s, events[0]), now, events[1..]);
    }
  }

  // Without such an error nothing can tear, and nothing is ever stopped: the plain promise.
  lemma {:induction false} NoErrorNoTear(certifies: Certifies, s: System, events: seq<Event>)
    requires Invariant(certifies, s)
    requires Run(certifies, s, events) && NoFailureMidSwap(certifies, s, events)
    ensures NothingTears(certifies, s, events) && !Stopped(certifies, s, false, events)
    ensures Invariant(certifies, After(certifies, s, events))
    decreases |events|
  {
    if events != [] {
      StepKeepsInvariant(certifies, s, events[0]);
      NoErrorNoTear(certifies, Next(certifies, s, events[0]), events[1..]);
    }
  }

  // ---- An error between the two moves ---------------------------------------------------------

  // From any directory at all, a certificate accepted to the end leaves a whole pair exactly when
  // the pair was whole before, or the certificate certifies the pending key or the key in force.
  lemma AcceptLeavesPairExactlyWhen(certifies: Certifies, d: Files, cert: Bytes, tidied: bool)
    ensures PairOk(certifies, Perform(d, AcceptActions(certifies, d, cert, tidied)))
       <==> || PairOk(certifies, d)
            || (PENDING_KEY in d && (|| CertifiesFile(certifies, d, cert, PENDING_KEY)
                                     || CertifiesFile(certifies, d, cert, ISSUED_KEY)))
  {
    NamesDiffer();
    if PENDING_KEY in d {
      var staged := d[PENDING_CERT := cert];
      var rest := RecoverActions(certifies, staged, tidied);
      PerformConcat(d, [Put(PENDING_CERT, cert)], rest);
      PerformOne(d, Put(PENDING_CERT, cert));
      RecoverStates(certifies, staged, tidied, |rest|);
      assert rest[..|rest|] == rest;
    }
  }

  // From a whole pair, anything a running process does and survives — to the end or with an error —
  // leaves a whole pair exactly when it does not fail between the two moves, or nothing was in
  // force before, or what was also certifies the new key.
  lemma EventLeavesPairExactlyWhen(certifies: Certifies, s: System, e: Event)
    requires s.serving && PairOk(certifies, s.files)
    requires Possible(certifies, s, e) && !e.outcome.Crashed?
    ensures PairOk(certifies, Next(certifies, s, e).files)
       <==> || !FailsMidSwap(certifies, s, e)
            || ISSUED_CERT !in s.files
            || CertifiesFile(certifies, s.files, s.files[ISSUED_CERT], PENDING_KEY)
  {
    NamesDiffer();
    if !FailsMidSwap(certifies, s, e) {
      StepKeepsInvariant(certifies, s, e);
    } else {
      var cert := e.op.cert;
      assert Performed(Actions(certifies, s.files, e.op), e.outcome)
          == [Put(PENDING_CERT, cert), Move(PENDING_KEY, ISSUED_KEY)];
      PerformTwo(s.files, Put(PENDING_CERT, cert), Move(PENDING_KEY, ISSUED_KEY));
    }
  }

  // The directory in which an error between the two moves leaves a request in flight: the key of
  // the stopped swap in force, the certificate before it still there.
  lemma StoppedMidSwap(certifies: Certifies, s: System, cert: Bytes, key: Bytes, csr: Bytes)
    requires s.serving && ISSUED_CERT in s.files
    requires CertifiesFile(certifies, s.files, cert, PENDING_KEY)
    ensures var failed := Event(Accept(cert, true), Outcome.Failed(2));
            var asked := Event(Request(true, key, csr), Outcome.Done);
            && Possible(certifies, s, failed)
            && var s1 := Next(certifies, s, failed);
            && Possible(certifies, s1, asked)
            && var s2 := Next(certifies, s1, asked);
            && s2.serving && PENDING_KEY in s2.files && s2.files[PENDING_KEY] == key
            && InForce(s2.files) == (Some(s.files[ISSUED_CERT]), Some(s.files[PENDING_KEY]))
  {
    NamesDiffer();
    var failed := Event(Accept(cert, true), Outcome.Failed(2));
    var actions := Actions(certifies, s.files, failed.op);
    assert actions[..2] == [Put(PENDING_CERT, cert), Move(PENDING_KEY, ISSUED_KEY)];
    PerformTwo(s.files, Put(PENDING_CERT, cert), Move(PENDING_KEY, ISSUED_KEY));
    PerformTwo(Next(certifies, s, failed).files, Put(PENDING_KEY, key), Put(PENDING_CSR, csr));
  }

  // The error between the two moves is a real exception: a rename that fails there, and an offered
  // certificate for neither key after it, leave a mixed pair in a process that goes on serving.
  lemma FailureMidSwapBreaksThePair() returns (certifies: Certifies, s: System, events: seq<Event>)
    ensures Invariant(certifies, s) && Run(certifies, s, events)
    ensures After(certifies, s, events).serving && !PairOk(certifies, After(certifies, s, events).files)
  {
    NamesDiffer();
    certifies := (cert: Bytes, key: Bytes) => cert == key;
    s := System(map[ISSUED_CERT := [1], ISSUED_KEY := [1], PENDING_KEY := [2], PENDING_CSR := [8]], true);
    var failed := Event(Accept([2], true), Outcome.Failed(2));
    var asked := Event(Request(true, [3], [9]), Outcome.Done);
    var foreign := Event(Accept([7], true), Outcome.Done);
    events := [failed, asked, foreign];
    StoppedMidSwap(certifies, s, [2], [3], [9]);
    var s2 := Next(certifies, Next(certifies, s, failed), asked);
    AcceptLeavesPairExactlyWhen(certifies, s2.files, [7], true);
    RunOfThree(certifies, s, failed, asked, foreign);
  }

  lemma RunOfThree(certifies: Certifies, s: System, a: Event, b: Event, c: Event)
    requires Possible(certifies, s, a) && Possible(certifies, Next(certifies, s, a), b)
    requires Possible(certifies, Next(certifies, Next(certifies, s, a), b), c)
    ensures Run(certifies, s, [a, b, c])
    ensures After(certifies, s, [a, b, c]) == Next(certifies, Next(certifies, Next(certifies, s, a), b), c)
  {
    assert [a, b, c][1..] == [b, c] && [b, c][1..] == [c] && [c][1..] == [];
    var s1 := Next(certifies, s, a);
    var s2 := Next(certifies, s1, b);
    var s3 := Next(certifies, s2, c);
    assert Run(certifies, s2, [c]) && After(certifies, s3, []) == s3;
    assert Run(certifies, s1, [b, c]) && After(certifies, s2, [c]) == s3;
    assert After(certifies, s1, [b, c]) == s3;
  }
}
