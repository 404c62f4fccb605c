/**
 A directory the Client holds open (`nofollow.rs`), down to the single system calls a crash can
 fall between. `HeldDir.Write` never writes a name in place: it fills a temporary name and renames
 it. What is proved here is that this makes the write atomic, for a crash or a failure anywhere.
 */
module HeldDirectory {
  import opened Outcomes
  import opened Text

  type Files = map<string, Bytes>

  // One system call. A completed call survives a crash, in order; `Append` is one byte of
  // `write_all`, so a write cut anywhere inside is a prefix of its steps too.
  datatype Step =
    | Unlink(name: string)
    | Create(name: string)
    | Append(name: string, next: byte)
    | Sync(name: string)
    | Rename(from: string, to: string)

  function Apply(d: Files, step: Step): Files {
    match step
    case Unlink(name) => d - {name}
    case Create(name) => d[name := []]
    case Append(name, next) => if name in d then d[name := d[name] + [next]] else d
    case Sync(_) => d
    case Rename(from, to) => if from in d then (d - {from})[to := d[from]] else d
  }

  function Exec(d: Files, steps: seq<Step>): Files {
    if steps == [] then d
    else Apply(Exec(d, steps[..|steps| - 1]), steps[|steps| - 1])
  }

  lemma {:induction false} ExecConcat(d: Files, a: seq<Step>, b: seq<Step>)
    ensures Exec(d, a + b) == Exec(Exec(d, a), b)
    decreases |b|
  {
    if b == [] {
      assert a + b == a;
    } else {
      assert (a + b)[..|a + b| - 1] == a + b[..|b| - 1];
      ExecConcat(d, a, b[..|b| - 1]);
    }
  }

  lemma ExecOne(d: Files, step: Step)
    ensures Exec(d, [step]) == Apply(d, step)
  {
    assert [step][..0] == [];
  }

  lemma ExecPrefix(d: Files, steps: seq<Step>, k: nat)
    requires 0 < k <= |steps|
    ensures Exec(d, steps[..k]) == Apply(Exec(d, steps[..k - 1]), steps[k - 1])
  {
    assert steps[..k][..k - 1] == steps[..k - 1];
  }

  // ---- The write of one file ----------------------------------------------------------------

  function Temporary(name: string): string {
    name + "~"
  }

  predicate IsTemporary(name: string) {
    name != "" && name[|name| - 1] == '~'
  }

  function AppendSteps(name: string, contents: Bytes): seq<Step> {
    seq(|contents|, i requires 0 <= i < |contents| => Append(name, contents[i]))
  }

  function WriteSteps(name: string, contents: Bytes): seq<Step> {
    var temporary := Temporary(name);
    [Unlink(temporary), Create(temporary)] + AppendSteps(temporary, contents)
    + [Sync(temporary), Rename(temporary, name)]
  }

  function Get(d: Files, name: string): Option<Bytes> {
    if name in d then Some(d[name]) else None
  }

  // The directory after `k` of the steps that write `contents` as `name`.
  ghost function Written(d: Files, name: string, contents: Bytes, k: nat): Files {
    var temporary := Temporary(name);
    if k == 0 then d
    else if k == 1 then d - {temporary}
    else if k <= 2 + |contents| then d[temporary := contents[..k - 2]]
    else if k == 3 + |contents| then d[temporary := contents]
    else (d - {temporary})[name := contents]
  }

  // The steps of a write, one by one.
  lemma WriteStepAt(name: string, contents: Bytes, k: nat)
    requires k < |WriteSteps(name, contents)|
    ensures |WriteSteps(name, contents)| == |contents| + 4
    ensures WriteSteps(name, contents)[k]
         == if k == 0 then Unlink(Temporary(name))
            else if k == 1 then Create(Temporary(name))
            else if k < 2 + |contents| then Append(Temporary(name), contents[k - 2])
            else if k == 2 + |contents| then Sync(Temporary(name))
            else Rename(Temporary(name), name)
  {
  }

  // One step from one state to the next.
  lemma WrittenStep(d: Files, name: string, contents: Bytes, k: nat)
    requires k < |WriteSteps(name, contents)|
    ensures Apply(Written(d, name, contents, k), WriteSteps(name, contents)[k]) == Written(d, name, contents, k + 1)
  {
    WriteStepAt(name, contents, k);
    if 2 <= k < 2 + |contents| {
      assert contents[..k - 2] + [contents[k - 2]] == contents[..k - 1];
    }
    assert contents[..|contents|] == contents;
  }

  lemma {:induction false} WriteStates(d: Files, name: string, contents: Bytes, k: nat)
    requires k <= |WriteSteps(name, contents)|
    ensures Exec(d, WriteSteps(name, contents)[..k]) == Written(d, name, contents, k)
  {
    var steps := WriteSteps(name, contents);
    if k > 0 {
      WriteStates(d, name, contents, k - 1);
      ExecPrefix(d, steps, k);
      WrittenStep(d, name, contents, k - 1);
    }
  }

  // `HeldDir::write` is an atomic put: after every prefix of its steps the name holds the whole
  // old content or the whole new one, and no name but it and its temporary has changed.
  lemma WriteIsAtomic(d: Files, name: string, contents: Bytes, k: nat)
    requires k <= |WriteSteps(name, contents)|
    ensures var cut := Exec(d, WriteSteps(name, contents)[..k]);
            && Get(cut, name) == (if k < |WriteSteps(name, contents)| then Get(d, name) else Some(contents))
            && cut - {name, Temporary(name)} == d - {name, Temporary(name)}
  {
    WriteStates(d, name, contents, k);
  }

  lemma WriteCompletes(d: Files, name: string, contents: Bytes)
    ensures Exec(d, WriteSteps(name, contents)) == (d - {Temporary(name)})[name := contents]
  {
    var steps := WriteSteps(name, contents);
    WriteStates(d, name, contents, |steps|);
    assert steps[..|steps|] == steps;
  }

  // The content is on disk before its name is: after the last byte there is a sync, and only then the
  // rename, which is the last call.
  lemma SyncedBeforeRenamed(name: string, contents: Bytes, k: nat)
    requires k < |WriteSteps(name, contents)|
    ensures var steps := WriteSteps(name, contents);
            && (steps[k].Rename? <==> k == |steps| - 1)
            && (steps[k].Sync? <==> k == |steps| - 2)
            && (steps[k].Append? ==> k < |steps| - 2)
            && (steps[k].Rename? ==> steps[k] == Rename(Temporary(name), name))
            && (!steps[k].Rename? ==> steps[k].name == Temporary(name))
  {
    WriteStepAt(name, contents, k);
  }

  // ---- Atomic actions, and the system calls they stand for ------------------------------------

  datatype Action =
    | Put(name: string, contents: Bytes)
    | Move(name: string, to: string)
    | Drop(name: string)
  {
    predicate Lasting() {
      !IsTemporary(name) && (Move? ==> !IsTemporary(to))
    }
  }

  function Act(d: Files, action: Action): Files {
    match action
    case Put(name, contents) => d[name := contents]
    case Move(name, to) => if name in d then (d - {name})[to := d[name]] else d
    case Drop(name) => d - {name}
  }

  function Perform(d: Files, actions: seq<Action>): Files {
    if actions == [] then d
    else Act(Perform(d, actions[..|actions| - 1]), actions[|actions| - 1])
  }

  lemma {:induction false} PerformConcat(d: Files, a: seq<Action>, b: seq<Action>)
    ensures Perform(d, a + b) == Perform(Perform(d, a), b)
    decreases |b|
  {
    if b == [] {
      assert a + b == a;
    } else {
      assert (a + b)[..|a + b| - 1] == a + b[..|b| - 1];
      PerformConcat(d, a, b[..|b| - 1]);
    }
  }

  function Calls(action: Action): seq<Step> {
    match action
    case Put(name, contents) => WriteSteps(name, contents)
    case Move(name, to) => [Rename(name, to)]
    case Drop(name) => [Unlink(name)]
  }

  function AllCalls(actions: seq<Action>): seq<Step> {
    if actions == [] then []
    else AllCalls(actions[..|actions| - 1]) + Calls(actions[|actions| - 1])
  }

  // The directory without its temporaries.
  function Lasting(d: Files): Files {
    map name | name in d && !IsTemporary(name) :: d[name]
  }

  // Cut anywhere, the system calls of one action have done all of it or none of it.
  lemma CallsRefineAction(d: Files, action: Action, k: nat)
    requires action.Lasting()
    requires k <= |Calls(action)|
    ensures Lasting(Exec(d, Calls(action)[..k]))
         == if k < |Calls(action)| then Lasting(d) else Act(Lasting(d), action)
  {
    match action
    case Put(name, contents) =>
      WriteStates(d, name, contents, k);
      assert IsTemporary(Temporary(name));
    case Move(name, to) =>
      assert Calls(action)[..k] == if k == 0 then [] else [Rename(name, to)];
      assert Exec(d, [Rename(name, to)]) == Apply(d, Rename(name, to));
    case Drop(name) =>
      assert Calls(action)[..k] == if k == 0 then [] else [Unlink(name)];
      assert Exec(d, [Unlink(name)]) == Apply(d, Unlink(name));
  }

  // How many whole actions the first `k` of their system calls complete.
  function CutPoint(actions: seq<Action>, k: nat): nat
    requires k <= |AllCalls(actions)|
    decreases |actions|
  {
    if k == |AllCalls(actions)| then |actions|
    else
      var most := actions[..|actions| - 1];
      if k < |AllCalls(most)| then CutPoint(most, k) else |most|
  }

  lemma {:induction false} CutPointBounds(actions: seq<Action>, k: nat)
    requires k <= |AllCalls(actions)|
    ensures var j := CutPoint(actions, k);
            && j <= |actions|
            && AllCalls(actions[..j]) <= AllCalls(actions)
            && |AllCalls(actions[..j])| <= k
            && (j < |actions| ==> k < |AllCalls(actions[..j])| + |Calls(actions[j])|)
    decreases |actions|
  {
    var j := CutPoint(actions, k);
    if k == |AllCalls(actions)| {
      assert actions[..j] == actions;
    } else {
      var most := actions[..|actions| - 1];
      if k < |AllCalls(most)| {
        CutPointBounds(most, k);
        assert most[..j] == actions[..j];
      }
    }
  }

  lemma CutAfter(d: Files, before: seq<Step>, one: seq<Step>, k: nat)
    requires |before| <= k <= |before + one|
    ensures Exec(d, (before + one)[..k]) == Exec(Exec(d, before), one[..k - |before|])
  {
    assert (before + one)[..k] == before + one[..k - |before|];
    ExecConcat(d, before, one[..k - |before|]);
  }

  // The last action's calls, cut: none of it, or all of it.
  lemma CutInLast(d: Files, before: seq<Step>, last: Action, k: nat)
    requires last.Lasting() && |before| <= k <= |before + Calls(last)|
    ensures Lasting(Exec(d, (before + Calls(last))[..k]))
         == if k < |before + Calls(last)| then Lasting(Exec(d, before)) else Act(Lasting(Exec(d, before)), last)
  {
    CutAfter(d, before, Calls(last), k);
    CallsRefineAction(Exec(d, before), last, k - |before|);
  }

  // Cut anywhere, the system calls of a list of actions have done a prefix of the actions.
  ghost predicate RefinedAt(d: Files, actions: seq<Action>, k: nat)
    requires k <= |AllCalls(actions)|
  {
    && CutPoint(actions, k) <= |actions|
    && Lasting(Exec(d, AllCalls(actions)[..k])) == Perform(Lasting(d), actions[..CutPoint(actions, k)])
  }

  lemma RefinedBeforeLast(d: Files, most: seq<Action>, last: Action, k: nat)
    requires k < |AllCalls(most)| && RefinedAt(d, most, k)
    ensures k < |AllCalls(most + [last])| && RefinedAt(d, most + [last], k)
  {
    var actions, j := most + [last], CutPoint(most, k);
    assert actions[..|most|] == most;
    assert AllCalls(actions)[..k] == AllCalls(most)[..k];
    assert actions[..j] == most[..j];
  }

  lemma RefinedInLast(d: Files, most: seq<Action>, last: Action, k: nat)
    requires last.Lasting() && RefinedAt(d, most, |AllCalls(most)|)
    requires |AllCalls(most)| <= k <= |AllCalls(most) + Calls(last)|
    ensures k <= |AllCalls(most + [last])| && RefinedAt(d, most + [last], k)
  {
    var actions, before := most + [last], AllCalls(most);
    assert actions[..|most|] == most && most[..|most|] == most && actions[..|actions|] == actions;
    assert before[..|before|] == before;
    CutInLast(d, before, last, k);
  }

  lemma {:induction false} CallsRefineActions(d: Files, actions: seq<Action>, k: nat)
    requires forall i | 0 <= i < |actions| :: actions[i].Lasting()
    requires k <= |AllCalls(actions)|
    ensures RefinedAt(d, actions, k)
    decreases |actions|
  {
    if actions == [] {
      assert AllCalls(actions)[..k] == [];
    } else {
      var most, last := actions[..|actions| - 1], actions[|actions| - 1];
      assert most + [last] == actions;
      if k < |AllCalls(most)| {
        CallsRefineActions(d, most, k);
        RefinedBeforeLast(d, most, last, k);
      } else {
        CallsRefineActions(d, most, |AllCalls(most)|);
        RefinedInLast(d, most, last, k);
      }
    }
  }

  // ---- The directory itself -------------------------------------------------------------------

  // What a failed write has done: its first call and some of the others, and perhaps the removal of
  // the temporary.
  ghost predicate CutWrite(steps: seq<Step>, name: string, contents: Bytes) {
    exists k: nat :: 0 < k < |WriteSteps(name, contents)|
                     && CutWriteAt(steps, WriteSteps(name, contents), Temporary(name), k)
  }

  ghost predicate CutWriteAt(steps: seq<Step>, all: seq<Step>, temporary: string, k: nat)
    requires k <= |all|
  {
    steps == all[..k] || steps == all[..k] + [Unlink(temporary)]
  }

  lemma UnlinkedAfter(d: Files, done: seq<Step>, name: string)
    ensures Exec(d, done + [Unlink(name)]) == Exec(d, done) - {name}
  {
    assert (done + [Unlink(name)])[..|done|] == done;
  }

  lemma UnfinishedWriteKeeps(d: Files, name: string, contents: Bytes, k: nat)
    requires k < |WriteSteps(name, contents)|
    ensures Exec(d, WriteSteps(name, contents)[..k]) - {Temporary(name)} == d - {Temporary(name)}
  {
    WriteStates(d, name, contents, k);
  }

  lemma KeepsOthers(was: Files, now: Files, name: string)
    requires now - {name} == was - {name}
    ensures forall other | other != name :: Get(now, other) == Get(was, other)
  {
    forall other | other != name
      ensures Get(now, other) == Get(was, other)
    {
      assert other in now <==> other in now - {name};
      assert other in was <==> other in was - {name};
    }
  }

  lemma OneMoreStep(d: Files, log: seq<Step>, steps: seq<Step>, k: nat)
    requires 1 <= k < |steps|
    ensures Exec(d, steps[1..k + 1]) == Apply(Exec(d, steps[1..k]), steps[k])
    ensures log + steps[1..k + 1] == (log + steps[1..k]) + [steps[k]]
  {
    assert steps[1..k + 1][..k - 1] == steps[1..k] && steps[1..k + 1][k - 1] == steps[k];
  }

  datatype Io = Done | NotFound | Failed

  // The held directory. Any call may fail; `log` records the calls that did something, so that
  // the states a crash can leave are the directory after each prefix of the log.
  class HeldDir {
    const reliable: bool  // no call fails that could be made
    var files: Files
    ghost var log: seq<Step>

    constructor (files: Files, reliable: bool)
      ensures this.files == files && this.reliable == reliable && log == []
    {
      this.files, this.reliable := files, reliable;
      log := [];
    }

    // What a method did: the calls it added to the log, and nothing else.
    twostate predicate Did(steps: seq<Step>)
      reads this
    {
      log == old(log) + steps && files == Exec(old(files), steps)
    }

    method UnlinkAt(name: string) returns (io: Io)
      modifies this
      ensures io != Failed ==> (io == Done <==> name in old(files))
      ensures reliable ==> io != Failed
      ensures files == if io == Failed then old(files) else Apply(old(files), Unlink(name))
      ensures Did(if io == Failed then [] else [Unlink(name)])
    {
      var fails := Fault(reliable);
      if fails {
        return Failed;
      }
      io := if name in files then Done else NotFound;
      files, log := files - {name}, log + [Unlink(name)];
      assert files == Exec(old(files), [Unlink(name)]);
    }

    // `O_CREAT | O_EXCL`: refused where there is a file.
    method CreateExclusive(name: string) returns (ok: bool)
      modifies this
      ensures name in old(files) ==> !ok
      ensures reliable && name !in old(files) ==> ok
      ensures files == if ok then Apply(old(files), Create(name)) else old(files)
      ensures Did(if ok then [Create(name)] else [])
    {
      if name in files {
        return false;
      }
      var fails := Fault(reliable);
      if fails {
        return false;
      }
      files, log := files[name := []], log + [Create(name)];
      assert files == Exec(old(files), [Create(name)]);
      ok := true;
    }

    method AppendByte(name: string, next: byte) returns (ok: bool)
      requires name in files
      modifies this
      ensures name in files && (reliable ==> ok)
      ensures files == if ok then Apply(old(files), Append(name, next)) else old(files)
      ensures Did(if ok then [Append(name, next)] else [])
    {
      var fails := Fault(reliable);
      if fails {
        return false;
      }
      files, log := files[name := files[name] + [next]], log + [Append(name, next)];
      assert files == Exec(old(files), [Append(name, next)]);
      ok := true;
    }

    method SyncAll(name: string) returns (ok: bool)
      modifies this
      ensures reliable ==> ok
      ensures files == if ok then Apply(old(files), Sync(name)) else old(files)
      ensures Did(if ok then [Sync(name)] else [])
    {
      var fails := Fault(reliable);
      if fails {
        return false;
      }
      log := log + [Sync(name)];
      assert files == Exec(old(files), [Sync(name)]);
      ok := true;
    }

    method RenameAt(from: string, to: string) returns (ok: bool)
      modifies this
      ensures from !in old(files) ==> !ok
      ensures reliable && from in old(files) ==> ok
      ensures files == if ok then Apply(old(files), Rename(from, to)) else old(files)
      ensures Did(if ok then [Rename(from, to)] else [])
    {
      if from !in files {
        return false;
      }
      var fails := Fault(reliable);
      if fails {
        return false;
      }
      files, log := (files - {from})[to := files[from]], log + [Rename(from, to)];
      assert files == Exec(old(files), [Rename(from, to)]);
      ok := true;
    }

    // The calls that create the temporary and give it the whole content, after the first one.
    method Fill(name: string, contents: Bytes) returns (ok: bool, ghost k: nat)
      requires Temporary(name) !in files
      modifies this
      ensures 1 <= k < |WriteSteps(name, contents)| && Did(WriteSteps(name, contents)[1..k])
      ensures (ok ==> k == |WriteSteps(name, contents)| - 1 && Temporary(name) in files) && (reliable ==> ok)
    {
      var temporary := Temporary(name);
      ghost var steps := WriteSteps(name, contents);
      k := 1;
      assert steps[1..k] == [];
      ok := CreateExclusive(temporary);
      if !ok {
        return;
      }
      WriteStepAt(name, contents, 1);
      assert steps[1..2] == [steps[1]];
      k := 2;
      var i := 0;
      while i < |contents|
        invariant 0 <= i <= |contents| && k == i + 2
        invariant temporary in files
        invariant ok && Did(steps[1..k])
      {
        WriteStepAt(name, contents, k);
        OneMoreStep(old(files), old(log), steps, k);
        ok := AppendByte(temporary, contents[i]);
        if !ok {
          return;
        }
        i, k := i + 1, k + 1;
      }
      WriteStepAt(name, contents, k);
      OneMoreStep(old(files), old(log), steps, k);
      ok := SyncAll(temporary);
      if ok {
        k := k + 1;
      }
    }

    // The calls up to the rename: the temporary holds the whole content.
    method Prepare(name: string, contents: Bytes) returns (ok: bool, begun: bool, ghost k: nat)
      modifies this
      ensures k < |WriteSteps(name, contents)| && Did(WriteSteps(name, contents)[..k])
      ensures (begun <==> k > 0) && (ok ==> k == |WriteSteps(name, contents)| - 1 && Temporary(name) in files)
      ensures reliable ==> ok && begun
    {
      ghost var steps := WriteSteps(name, contents);
      var io := UnlinkAt(Temporary(name));
      if io == Failed {
        assert steps[..0] == [];
        return false, false, 0;
      }
      begun := true;
      assert steps[..1] == [Unlink(Temporary(name))];
      ok, k := Fill(name, contents);
      assert steps[..1] + steps[1..k] == steps[..k];
      ExecConcat(old(files), steps[..1], steps[1..k]);
    }

    // After a failed write: the temporary goes, best effort.
    method CleanUp(temporary: string, ghost was: Files, ghost all: seq<Step>, ghost k: nat)
      returns (ghost steps: seq<Step>)
      requires k <= |all| && files == Exec(was, all[..k]) && files - {temporary} == was - {temporary}
      modifies this
      ensures CutWriteAt(steps, all, temporary, k)
      ensures all[..k] <= steps && Did(steps[k..]) && files == Exec(was, steps)
      ensures files - {temporary} == was - {temporary}
    {
      UnlinkedAfter(was, all[..k], temporary);
      ExecOne(files, Unlink(temporary));
      var cleanup := UnlinkAt(temporary);
      steps := if cleanup == Failed then all[..k] else all[..k] + [Unlink(temporary)];
      assert steps[k..] == if cleanup == Failed then [] else [Unlink(temporary)];
    }

    // The whole file, or nothing of it; a write that could not even clear its temporary name stops
    // there.
    method Write(name: string, contents: Bytes) returns (ok: bool)
      modifies this
      ensures !PlainName(name) ==> !ok && Did([])
      ensures reliable && PlainName(name) ==> ok
      ensures ok ==> Did(WriteSteps(name, contents))
      ensures ok ==> files == (old(files) - {Temporary(name)})[name := contents]
      ensures !ok ==> exists steps :: Did(steps) && (steps == [] || CutWrite(steps, name, contents))
      ensures !ok ==> files - {Temporary(name)} == old(files) - {Temporary(name)}
      ensures forall other | other != name && other != Temporary(name) :: Get(files, other) == Get(old(files), other)
    {
      if !PlainName(name) {
        assert Did([]);
        return false;
      }
      var temporary := Temporary(name);
      ghost var was, log0, steps, k := files, log, WriteSteps(name, contents), 0;
      var begun;
      ok, begun, k := Prepare(name, contents);
      if !begun {
        assert Did([]);
        return;
      }
      if ok {
        RenamesInto(was, log0, steps, k, temporary, name);
        ok := RenameAt(temporary, name);
        if ok {
          WriteCompletes(was, name, contents);
          return;
        }
      }
      UnfinishedWriteKeeps(was, name, contents, k);
      ghost var did := CleanUp(temporary, was, steps, k);
      assert log0 + steps[..k] + did[k..] == log0 + did;
      assert Did(did) && CutWrite(did, name, contents);
      KeepsOthers(was, files, temporary);
    }
  }

  lemma RenamesInto(d: Files, log: seq<Step>, steps: seq<Step>, k: nat, temporary: string, name: string)
    requires steps != [] && k < |steps| && steps[|steps| - 1] == Rename(temporary, name)
    ensures k == |steps| - 1 ==> Apply(Exec(d, steps[..k]), Rename(temporary, name)) == Exec(d, steps)
    ensures k == |steps| - 1 ==> (log + steps[..k]) + [Rename(temporary, name)] == log + steps
  {
    assert k == |steps| - 1 ==> steps == steps[..k] + [Rename(temporary, name)];
  }
}
