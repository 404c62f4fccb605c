/**
 The operations of `csr.rs` as the Client runs them, on a held directory whose every call may fail.
 Each is proved to make exactly the system calls its specification lists, in order, or to stop
 with an error after some of them; the crash theorems of `CertificateCrashes` are about those lists.
 */
module Enrolment {
  import opened Outcomes
  import opened HeldDirectory
  import opened CertificateSwap
  import opened CertificateCrashes

  // What may follow a failed write: its temporary is removed.
  predicate Cleanup(steps: seq<Step>) {
    steps == [] || (|steps| == 1 && steps[0].Unlink? && IsTemporary(steps[0].name))
  }

  // An operation made the first `k` of `all` its calls: every one of them when it succeeded.
  twostate predicate DidUpTo(dir: HeldDir, all: seq<Step>, k: nat, ok: bool, cleanup: seq<Step>)
    reads dir
  {
    k <= |all| && Cleanup(cleanup) && dir.Did(all[..k] + cleanup) && (ok ==> k == |all| && cleanup == [])
  }

  // Every moment inside an operation, and its end, is a state the runs of `CertificateCrashes`
  // reach: a crash there is one of their events, and so is the error the operation returns.
  lemma MomentsAreEvents(certifies: Certifies, s: System, op: Operation, k: nat, cleanup: seq<Step>, j: nat)
    returns (crash: CallEvent, fail: CallEvent)
    requires (op.Recover? <==> !s.serving) && k <= |OperationCalls(certifies, s.files, op)| && Cleanup(cleanup)
    requires j <= k + |cleanup|
    ensures crash.event.op == fail.event.op == op
    ensures crash.event.outcome.Crashed? && fail.event.outcome == Outcome.Failed(k)
    ensures CallPossible(certifies, s, crash) && CallPossible(certifies, s, fail)
    ensures var did := OperationCalls(certifies, s.files, op)[..k] + cleanup;
            && CallNext(certifies, s, crash).files == Exec(s.files, did[..j])
            && CallNext(certifies, s, fail).files == Exec(s.files, did)
  {
    var gone: set<string> := if cleanup == [] then {} else {cleanup[0].name};
    crash := CallEvent(Event(op, Crashed(if j <= k then j else k)), if j <= k then {} else gone);
    fail := CallEvent(Event(op, Outcome.Failed(k)), gone);
    MomentsLeave(s.files, OperationCalls(certifies, s.files, op), k, cleanup, j, gone);
  }

  lemma MomentsLeave(d: Files, calls: seq<Step>, k: nat, cleanup: seq<Step>, j: nat, gone: set<string>)
    requires k <= |calls| && Cleanup(cleanup) && j <= k + |cleanup|
    requires gone == if cleanup == [] then {} else {cleanup[0].name}
    ensures var did := calls[..k] + cleanup;
            && Exec(d, did[..j]) == Leaves(d, calls, Crashed(if j <= k then j else k), if j <= k then {} else gone)
            && Exec(d, did) == Leaves(d, calls, Outcome.Failed(k), gone)
  {
    CleanedUp(d, calls[..k], cleanup, j);
    assert j <= k ==> calls[..k][..j] == calls[..j];
  }

  lemma CleanedUp(d: Files, done: seq<Step>, cleanup: seq<Step>, j: nat)
    requires Cleanup(cleanup) && j <= |done| + |cleanup|
    ensures Exec(d, done + cleanup) == Exec(d, done) - if cleanup == [] then {} else {cleanup[0].name}
    ensures (done + cleanup)[..j] == if j <= |done| then done[..j] else done + cleanup
  {
    if cleanup == [] {
      assert done + cleanup == done;
    } else {
      assert cleanup == [Unlink(cleanup[0].name)];
      UnlinkedAfter(d, done, cleanup[0].name);
    }
  }

  // A failed write, as a cut of the calls it is part of.
  lemma FailedWriteIsCut(before: seq<Step>, name: string, contents: Bytes, rest: seq<Step>, steps: seq<Step>)
    returns (k: nat, cleanup: seq<Step>)
    requires steps == [] || CutWrite(steps, name, contents)
    ensures var all := before + WriteSteps(name, contents) + rest;
            k <= |all| && Cleanup(cleanup) && all[..k] + cleanup == before + steps
  {
    var write := WriteSteps(name, contents);
    if steps == [] {
      k, cleanup := |before|, [];
      assert (before + write + rest)[..k] == before;
    } else {
      var n: nat :| 0 < n < |write| && CutWriteAt(steps, write, Temporary(name), n);
      cleanup := steps[n..];
      assert steps[..n] == write[..n] && (cleanup == [] || cleanup == [Unlink(Temporary(name))]);
      k := |before| + n;
      CutInside(before, write, rest, n);
      assert steps == write[..n] + cleanup;
      Associates(before, write[..n], cleanup);
    }
  }

  lemma CutInside(before: seq<Step>, middle: seq<Step>, rest: seq<Step>, n: nat)
    requires n <= |middle|
    ensures (before + middle + rest)[..|before| + n] == before + middle[..n]
  {
  }

  lemma AllCallsOne(a: Action)
    ensures AllCalls([a]) == Calls(a)
  {
    assert [a][..0] == [];
  }

  lemma AllCallsTwo(a: Action, b: Action)
    ensures AllCalls([a, b]) == Calls(a) + Calls(b)
  {
    assert [a, b][..1] == [a];
    AllCallsOne(a);
  }

  lemma Associates<T>(a: seq<T>, b: seq<T>, c: seq<T>)
    ensures (a + b) + c == a + (b + c)
  {
  }

  lemma {:induction false} AllCallsConcat(a: seq<Action>, b: seq<Action>)
    ensures AllCalls(a + b) == AllCalls(a) + AllCalls(b)
    decreases |b|
  {
    if b == [] {
      assert a + b == a;
    } else {
      var most, last := b[..|b| - 1], b[|b| - 1];
      assert (a + b)[..|a + b| - 1] == a + most;
      AllCallsConcat(a, most);
      Associates(AllCalls(a), AllCalls(most), Calls(last));
    }
  }

  // The calls of a recovery, written out.
  function RecoverCalls(certifies: Certifies, d: Files, tidied: bool): seq<Step> {
    var tidy := if tidied then [Unlink(PENDING_CSR)] else [];
    if PENDING_CERT !in d then
      []
    else if CertifiesFile(certifies, d, d[PENDING_CERT], PENDING_KEY) then
      [Rename(PENDING_KEY, ISSUED_KEY), Rename(PENDING_CERT, ISSUED_CERT)] + tidy
    else if CertifiesFile(certifies, d, d[PENDING_CERT], ISSUED_KEY) then
      [Rename(PENDING_CERT, ISSUED_CERT)] + (if PENDING_KEY in d then [] else tidy)
    else
      [Unlink(PENDING_CERT)]
  }

  lemma RecoverCallsAreItsActions(certifies: Certifies, d: Files, tidied: bool)
    ensures AllCalls(RecoverActions(certifies, d, tidied)) == RecoverCalls(certifies, d, tidied)
  {
    var actions := RecoverActions(certifies, d, tidied);
    if |actions| == 1 {
      AllCallsOne(actions[0]);
      assert actions == [actions[0]];
    } else if |actions| == 2 {
      AllCallsTwo(actions[0], actions[1]);
      assert actions == [actions[0], actions[1]];
    } else if |actions| == 3 {
      AllCallsTwo(actions[0], actions[1]);
      assert actions[..2] == [actions[0], actions[1]];
    }
  }

  // Puts the staged certificate in force, and tidies the answered request: the calls after the
  // key is in place.
  method PutCertificateInForce(dir: HeldDir) returns (ok: bool, ghost tidied: bool)
    requires PENDING_CERT in dir.files
    modifies dir
    ensures dir.reliable ==> ok && tidied
    ensures !ok ==> dir.Did([])
    ensures ok ==> dir.Did([Rename(PENDING_CERT, ISSUED_CERT)]
                           + if PENDING_KEY !in old(dir.files) && tidied then [Unlink(PENDING_CSR)] else [])
  {
    NamesDiffer();
    tidied := true;
    ok := dir.RenameAt(PENDING_CERT, ISSUED_CERT);
    if ok && PENDING_KEY !in dir.files {
      ExecConcat(old(dir.files), [Rename(PENDING_CERT, ISSUED_CERT)], [Unlink(PENDING_CSR)]);
      Associates(old(dir.log), [Rename(PENDING_CERT, ISSUED_CERT)], [Unlink(PENDING_CSR)]);
      var io := dir.UnlinkAt(PENDING_CSR);
      tidied := io != Io.Failed;
    }
  }

  // The first part: moves the key if it is still pending, or drops what is staged when it is for no
  // key here. `go` says that the certificate is to be moved next.
  method PlaceKey(dir: HeldDir, certifies: Certifies) returns (ok: bool, go: bool, ghost k: nat)
    requires PENDING_CERT in dir.files
    modifies dir
    ensures k <= 1 && (!ok ==> k == 0) && (dir.reliable ==> ok)
    ensures forall tidied :: k <= |RecoverCalls(certifies, old(dir.files), tidied)|
                          && dir.Did(RecoverCalls(certifies, old(dir.files), tidied)[..k])
    ensures ok && !go ==> forall tidied :: |RecoverCalls(certifies, old(dir.files), tidied)| == k
    ensures ok && go ==> PENDING_CERT in dir.files && forall tidied ::
              RecoverCalls(certifies, old(dir.files), tidied)[k..]
              == [Rename(PENDING_CERT, ISSUED_CERT)]
                 + if PENDING_KEY !in dir.files && tidied then [Unlink(PENDING_CSR)] else []
  {
    NamesDiffer();
    k, go := 0, true;
    var cert := dir.files[PENDING_CERT];
    if PENDING_KEY in dir.files && certifies(cert, dir.files[PENDING_KEY]) {
      ok := dir.RenameAt(PENDING_KEY, ISSUED_KEY);
      k := if ok then 1 else 0;
    } else if ISSUED_KEY in dir.files && certifies(cert, dir.files[ISSUED_KEY]) {
      ok := true;
    } else {
      var io := dir.UnlinkAt(PENDING_CERT);
      ok, go := io == Io.Done, false;
      k := if ok then 1 else 0;
    }
  }

  method RecoverByCalls(dir: HeldDir, certifies: Certifies) returns (ok: bool, ghost tidied: bool, ghost k: nat)
    modifies dir
    ensures dir.reliable ==> ok && tidied
    ensures k <= |RecoverCalls(certifies, old(dir.files), tidied)|
    ensures dir.Did(RecoverCalls(certifies, old(dir.files), tidied)[..k])
    ensures ok ==> k == |RecoverCalls(certifies, old(dir.files), tidied)|
  {
    if PENDING_CERT !in dir.files {
      return true, true, 0;
    }
    tidied := true;
    var go;
    ok, go, k := PlaceKey(dir, certifies);
    if ok && go {
      ghost var placed := dir.files;
      ok, tidied := PutCertificateInForce(dir);
      if ok {
        ghost var all := RecoverCalls(certifies, old(dir.files), tidied);
        assert dir.files == Exec(placed, all[k..]);
        Joins(old(dir.files), old(dir.log), all, k);
        k := |all|;
      }
    }
  }

  lemma Joins(d: Files, log: seq<Step>, all: seq<Step>, k: nat)
    requires k <= |all|
    ensures Exec(Exec(d, all[..k]), all[k..]) == Exec(d, all[..|all|])
    ensures (log + all[..k]) + all[k..] == log + all[..|all|]
  {
    assert all[..|all|] == all[..k] + all[k..];
    ExecConcat(d, all[..k], all[k..]);
  }

  // The recovery: all of its calls, or those before the one that failed.
  method Recover(dir: HeldDir, certifies: Certifies) returns (ok: bool, ghost tidied: bool, ghost k: nat)
    modifies dir
    ensures dir.reliable ==> ok && tidied
    ensures DidUpTo(dir, OperationCalls(certifies, old(dir.files), Operation.Recover(tidied)), k, ok, [])
    ensures ok ==> PENDING_CERT !in dir.files && InForce(dir.files) == Verdict(certifies, old(dir.files))
  {
    ok, tidied, k := RecoverByCalls(dir, certifies);
    RecoverCallsAreItsActions(certifies, old(dir.files), tidied);
    RecoverEffect(certifies, old(dir.files), tidied);
    ghost var all := OperationCalls(certifies, old(dir.files), Operation.Recover(tidied));
    assert all[..k] + [] == all[..k] && (ok ==> all[..k] == all);
  }

  lemma RecoverEffect(certifies: Certifies, d: Files, tidied: bool)
    ensures var after := Exec(d, OperationCalls(certifies, d, Operation.Recover(tidied)));
            PENDING_CERT !in after && InForce(after) == Verdict(certifies, d)
  {
    var actions := RecoverActions(certifies, d, tidied);
    var calls := AllCalls(actions);
    ActionsIgnoreTemporaries(certifies, d, Operation.Recover(tidied));
    CallsRefineActions(d, actions, |calls|);
    assert calls[..|calls|] == calls && actions[..|actions|] == actions;
    RecoveryPutsVerdictInForce(certifies, Lasting(d), tidied);
    RecoveryIsIdempotent(certifies, Lasting(d), tidied, tidied);
    LastingDecides(certifies, d);
    LastingDecides(certifies, Exec(d, calls));
  }

  lemma LastingDecides(certifies: Certifies, d: Files)
    ensures InForce(Lasting(d)) == InForce(d) && Verdict(certifies, Lasting(d)) == Verdict(certifies, d)
    ensures PENDING_CERT in Lasting(d) <==> PENDING_CERT in d
  {
    NamesDiffer();
  }

  // The staging write and then the recovery, for a Client whose key is pending.
  method Accept(dir: HeldDir, certifies: Certifies, cert: Bytes)
    returns (ok: bool, ghost tidied: bool, ghost k: nat, ghost cleanup: seq<Step>)
    modifies dir
    ensures PENDING_KEY !in old(dir.files) ==> !ok
    ensures dir.reliable ==> (ok <==> PENDING_KEY in old(dir.files)) && tidied
    ensures DidUpTo(dir, OperationCalls(certifies, old(dir.files), Operation.Accept(cert, tidied)), k, ok, cleanup)
    ensures ok ==> InForce(dir.files) == Verdict(certifies, old(dir.files)[PENDING_CERT := cert])
  {
    if PENDING_KEY !in dir.files {
      return false, true, 0, [];
    }
    ghost var staged := (dir.files - {Temporary(PENDING_CERT)})[PENDING_CERT := cert];
    ok, tidied, k, cleanup := StageAndRecover(dir, certifies, cert, staged);
    AcceptCallsAre(certifies, old(dir.files), staged, cert, tidied);
  }

  method StageAndRecover(dir: HeldDir, certifies: Certifies, cert: Bytes, ghost staged: Files)
    returns (ok: bool, ghost tidied: bool, ghost k: nat, ghost cleanup: seq<Step>)
    requires staged == (dir.files - {Temporary(PENDING_CERT)})[PENDING_CERT := cert]
    modifies dir
    ensures dir.reliable ==> ok && tidied
    ensures var rest := OperationCalls(certifies, staged, Operation.Recover(tidied));
            DidUpTo(dir, WriteSteps(PENDING_CERT, cert) + rest, k, ok, cleanup)
    ensures ok ==> InForce(dir.files) == Verdict(certifies, staged)
  {
    ghost var write, before := WriteSteps(PENDING_CERT, cert), dir.log;
    ok, k, cleanup := StageCertificate(dir, cert);
    if !ok {
      tidied := true;
      CutOfLonger(write, OperationCalls(certifies, staged, Operation.Recover(tidied)), k);
      return;
    }
    ok, tidied, k := RecoverAfter(dir, certifies, write, old(dir.files), before, staged);
    cleanup := [];
  }

  // The recovery as the rest of a longer list of calls.
  method RecoverAfter(
    dir: HeldDir, certifies: Certifies, ghost write: seq<Step>,
    ghost d: Files, ghost log: seq<Step>, ghost staged: Files)
    returns (ok: bool, ghost tidied: bool, ghost k: nat)
    requires dir.files == staged == Exec(d, write) && dir.log == log + write
    modifies dir
    ensures dir.reliable ==> ok && tidied
    ensures var all := write + OperationCalls(certifies, staged, Operation.Recover(tidied));
            && k <= |all| && (ok ==> k == |all|)
            && dir.log == log + (all[..k] + []) && dir.files == Exec(d, all[..k] + [])
    ensures ok ==> InForce(dir.files) == Verdict(certifies, staged)
  {
    ok, tidied, k := Recover(dir, certifies);
    AppendCut(d, log, write, OperationCalls(certifies, staged, Operation.Recover(tidied)), k);
    k := |write| + k;
  }

  lemma CutOfLonger(write: seq<Step>, rest: seq<Step>, k: nat)
    requires k <= |write|
    ensures (write + rest)[..k] == write[..k]
  {
  }

  lemma AppendCut(d: Files, log: seq<Step>, write: seq<Step>, rest: seq<Step>, n: nat)
    requires n <= |rest|
    ensures Exec(Exec(d, write), rest[..n] + []) == Exec(d, (write + rest)[..|write| + n] + [])
    ensures (log + write) + (rest[..n] + []) == log + ((write + rest)[..|write| + n] + [])
  {
    assert (write + rest)[..|write| + n] + [] == write + rest[..n] && rest[..n] + [] == rest[..n];
    ExecConcat(d, write, rest[..n]);
  }

  method StageCertificate(dir: HeldDir, cert: Bytes) returns (ok: bool, ghost k: nat, ghost cleanup: seq<Step>)
    modifies dir
    ensures dir.reliable ==> ok
    ensures ok ==> dir.Did(WriteSteps(PENDING_CERT, cert))
    ensures ok ==> dir.files == (old(dir.files) - {Temporary(PENDING_CERT)})[PENDING_CERT := cert]
    ensures !ok ==> DidUpTo(dir, WriteSteps(PENDING_CERT, cert), k, ok, cleanup)
  {
    k, cleanup := 0, [];
    NamesDiffer();
    ok := dir.Write(PENDING_CERT, cert);
    if !ok {
      ghost var steps :| dir.Did(steps) && (steps == [] || CutWrite(steps, PENDING_CERT, cert));
      k, cleanup := FailedWriteIsCut([], PENDING_CERT, cert, [], steps);
      ghost var write := WriteSteps(PENDING_CERT, cert);
      assert [] + write + [] == write && [] + steps == steps;
    }
  }

  lemma AcceptCallsAre(certifies: Certifies, d: Files, staged: Files, cert: Bytes, tidied: bool)
    requires PENDING_KEY in d && staged == (d - {Temporary(PENDING_CERT)})[PENDING_CERT := cert]
    ensures OperationCalls(certifies, d, Operation.Accept(cert, tidied))
         == WriteSteps(PENDING_CERT, cert) + OperationCalls(certifies, staged, Operation.Recover(tidied))
    ensures Verdict(certifies, staged) == Verdict(certifies, d[PENDING_CERT := cert])
  {
    NamesDiffer();
    assert IsTemporary(Temporary(PENDING_CERT));
    var rest := RecoverActions(certifies, staged, tidied);
    assert rest == RecoverActions(certifies, d[PENDING_CERT := cert], tidied);
    AllCallsConcat([Put(PENDING_CERT, cert)], rest);
    AllCallsOne(Put(PENDING_CERT, cert));
  }

  // What to send: nothing, the text already there, or `csr` once `key` and it are both written.
  method Request(dir: HeldDir, due: bool, key: Bytes, csr: Bytes)
    returns (sent: Option<Bytes>, ghost k: nat, ghost cleanup: seq<Step>)
    modifies dir
    ensures ISSUED_CERT in old(dir.files) && ISSUED_KEY in old(dir.files) && !due ==> sent == None
    ensures dir.reliable && (ISSUED_CERT !in old(dir.files) || ISSUED_KEY !in old(dir.files) || due) ==> sent.Some?
    ensures DidUpTo(dir, AllCalls(RequestActions(old(dir.files), due, key, csr)), k,
                    sent.Some? || !NeedsCertificate(old(dir.files), due), cleanup)
    ensures sent.Some? ==> PENDING_KEY in dir.files && Get(dir.files, PENDING_CSR) == sent
    ensures NeedsCertificate(old(dir.files), due) && PENDING_KEY in old(dir.files) && PENDING_CSR in old(dir.files) ==>
              sent == Some(old(dir.files)[PENDING_CSR])
    ensures sent.Some? && !(PENDING_KEY in old(dir.files) && PENDING_CSR in old(dir.files)) ==>
              sent == Some(csr) && Get(dir.files, PENDING_KEY) == Some(key)
  {
    k, cleanup := 0, [];
    if ISSUED_CERT in dir.files && ISSUED_KEY in dir.files && !due {
      return None, 0, [];
    }
    if PENDING_KEY in dir.files && PENDING_CSR in dir.files {
      return Some(dir.files[PENDING_CSR]), 0, [];
    }
    AllCallsTwo(Put(PENDING_KEY, key), Put(PENDING_CSR, csr));
    sent, k, cleanup := Generate(dir, key, csr);
  }

  method Generate(dir: HeldDir, key: Bytes, csr: Bytes)
    returns (sent: Option<Bytes>, ghost k: nat, ghost cleanup: seq<Step>)
    modifies dir
    ensures dir.reliable ==> sent.Some?
    ensures DidUpTo(dir, WriteSteps(PENDING_KEY, key) + WriteSteps(PENDING_CSR, csr), k, sent.Some?, cleanup)
    ensures sent.Some? ==> && sent == Some(csr)
                           && Get(dir.files, PENDING_KEY) == Some(key) && Get(dir.files, PENDING_CSR) == sent
  {
    NamesDiffer();
    k, cleanup := 0, [];
    ghost var was, first, second := dir.files, WriteSteps(PENDING_KEY, key), WriteSteps(PENDING_CSR, csr);
    var ok := dir.Write(PENDING_KEY, key);
    if !ok {
      ghost var steps :| dir.Did(steps) && (steps == [] || CutWrite(steps, PENDING_KEY, key));
      k, cleanup := FailedWriteIsCut([], PENDING_KEY, key, second, steps);
      assert [] + first + second == first + second && [] + steps == steps;
      return None, k, cleanup;
    }
    label Keyed:
    ghost var keyed := dir.files;
    ok := dir.Write(PENDING_CSR, csr);
    if !ok {
      ghost var steps :| dir.Did@Keyed(steps) && (steps == [] || CutWrite(steps, PENDING_CSR, csr));
      k, cleanup := FailedWriteIsCut(first, PENDING_CSR, csr, [], steps);
      assert first + second + [] == first + second;
      ExecConcat(was, first, steps);
      Associates(old(dir.log), first, steps);
      return None, k, cleanup;
    }
    ExecConcat(was, first, second);
    Associates(old(dir.log), first, second);
    k := |first + second|;
    assert (first + second)[..k] + [] == first + second;
    sent := Some(csr);
  }
}
