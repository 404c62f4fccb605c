/**
 The package floors of this Client (`floors.rs`): per Agent type the highest version the operator
 signed, kept in memory and in a file, and only ever raised by what the Server serves.
 */
module Floors {
  import opened Outcomes
  import opened SemVer
  import opened Text

  datatype Floor = Floor(version: string, signature: string)

  type FloorMap = map<string, Floor>

  // Whether the operator's key signed the floor statement of an Agent type: Ed25519 stays abstract.
  type Signed = (Bytes, string, Floor) -> bool

  predicate Verifies(signed: Signed, key: Bytes, agentType: string, floor: Floor) {
    IsSemVer(floor.version) && signed(key, agentType, floor)
  }

  predicate AllSemVer(floors: FloorMap) {
    forall t | t in floors :: IsSemVer(floors[t].version)
  }

  // ---- Taking what the Server serves ----------------------------------------------------------

  // What a served floor needs to replace the kept one: a signature, and a higher version if there is one.
  predicate Raises(signed: Signed, key: Bytes, kept: FloorMap, agentType: string, floor: Floor) {
    && Verifies(signed, key, agentType, floor)
    && (agentType in kept ==> Precedence(floor.version, kept[agentType].version) == Some(Greater))
  }

  type Keeps = (string, Floor) -> bool

  function Raising(signed: Signed, key: Bytes, kept: FloorMap): Keeps {
    (agentType: string, floor: Floor) => Raises(signed, key, kept, agentType, floor)
  }

  // The kept floors, each replaced by the served one where that is to be kept instead.
  function Overlay(kept: FloorMap, served: FloorMap, keeps: Keeps): FloorMap {
    map t | t in kept.Keys + served.Keys && (t in kept || keeps(t, served[t])) ::
      if t in served && keeps(t, served[t]) then served[t] else kept[t]
  }

  function Taken(signed: Signed, key: Bytes, kept: FloorMap, served: FloorMap): FloorMap {
    Overlay(kept, served, Raising(signed, key, kept))
  }

  predicate AnyKept(served: FloorMap, keeps: Keeps) {
    exists t :: t in served && keeps(t, served[t])
  }

  predicate AnyRaises(signed: Signed, key: Bytes, kept: FloorMap, served: FloorMap) {
    AnyKept(served, Raising(signed, key, kept))
  }

  lemma OverlayOfNothing(kept: FloorMap, keeps: Keeps)
    ensures Overlay(kept, map[], keeps) == kept && !AnyKept(map[], keeps)
  {
  }

  // One more served type: the types do not interfere, so their order does not matter.
  lemma OverlayOneMore(kept: FloorMap, part: FloorMap, keeps: Keeps, t: string, floor: Floor)
    requires t !in part
    ensures var laid := Overlay(kept, part, keeps);
            && (t in laid <==> t in kept) && (t in kept ==> laid[t] == kept[t])
            && Overlay(kept, part[t := floor], keeps) == (if keeps(t, floor) then laid[t := floor] else laid)
    ensures AnyKept(part[t := floor], keeps) <==> AnyKept(part, keeps) || keeps(t, floor)
  {
    var more := part[t := floor];
    assert more[t] == floor && forall u | u in part :: more[u] == part[u];
  }

  lemma RaisesAlike(signed: Signed, key: Bytes, kept: FloorMap, now: FloorMap, t: string, floor: Floor)
    requires (t in now <==> t in kept) && (t in kept ==> now[t] == kept[t])
    ensures Raises(signed, key, now, t, floor) == Raises(signed, key, kept, t, floor)
  {
  }

  // What stands at the file's name: nothing, floors, or something that does not parse as floors.
  datatype Stored = Missing | Holds(floors: FloorMap) | Unparsable(why: string)

  // Only a missing file stands for no floors.
  function Opened(file: Stored): Result<FloorMap, string> {
    match file
    case Missing => Ok(map[])
    case Holds(floors) => if AllSemVer(floors) then Ok(floors) else Err("a version is not SemVer")
    case Unparsable(why) => Err(why)
  }

  datatype FloorState = FloorState(kept: Result<FloorMap, string>, file: Stored)

  // `writable` says whether the write of the file works when one is made.
  function TakeInto(signed: Signed, key: Option<Bytes>, s: FloorState, served: FloorMap, writable: bool): FloorState {
    if key.None? || s.kept.Err? then s
    else
      var taken := Taken(signed, key.value, s.kept.value, served);
      FloorState(Ok(taken),
                 if writable && AnyRaises(signed, key.value, s.kept.value, served) then Holds(taken) else s.file)
  }

  class FloorFile {
    const key: Option<Bytes>
    var kept: Result<FloorMap, string>
    var file: Stored

    constructor (file: Stored, key: Option<Bytes>)
      ensures this.key == key && this.file == file && kept == Opened(file)
    {
      this.key := key;
      this.file := file;
      this.kept := Opened(file);
    }

    ghost function State(): FloorState
      reads this
    {
      FloorState(kept, file)
    }

    // Goes through the served types in no particular order; `writable` says whether the write that
    // follows a raise works.
    method Take(served: FloorMap, signed: Signed, writable: bool)
      modifies this
      ensures State() == TakeInto(signed, key, old(State()), served, writable)
    {
      if key.None? || kept.Err? {
        return;
      }
      ghost var before, part: FloorMap := kept.value, map[];
      ghost var raising := Raising(signed, key.value, before);
      var floors, raised, left := kept.value, false, served.Keys;
      OverlayOfNothing(before, raising);
      while left != {}
        invariant file == old(file)
        invariant left <= served.Keys && part.Keys == served.Keys - left
        invariant forall t | t in part :: part[t] == served[t]
        invariant floors == Overlay(before, part, raising)
        invariant raised <==> AnyKept(part, raising)
        decreases left
      {
        var t :| t in left;
        left := left - {t};
        OverlayOneMore(before, part, raising, t, served[t]);
        RaisesAlike(signed, key.value, before, floors, t, served[t]);
        part := part[t := served[t]];
        if Raises(signed, key.value, floors, t, served[t]) {
          floors, raised := floors[t := served[t]], true;
        }
      }
      assert part == served;
      kept := Ok(floors);
      if raised && writable {
        file := Holds(floors);
      }
    }

    // An unreadable file answers every type with its reason.
    function Floor(agentType: string): Result<Option<string>, string>
      reads this
    {
      FloorFor(kept, agentType)
    }
  }

  function FloorFor(kept: Result<FloorMap, string>, agentType: string): Result<Option<string>, string> {
    if kept.Err? then Err(kept.error)
    else if agentType in kept.value then Ok(Some(kept.value[agentType].version))
    else Ok(None)
  }

  // ---- A maximum over everything served -------------------------------------------------------

  function TakenAll(signed: Signed, key: Bytes, kept: FloorMap, served: seq<FloorMap>): FloorMap {
    if served == [] then kept
    else Taken(signed, key, TakenAll(signed, key, kept, served[..|served| - 1]), served[|served| - 1])
  }

  // Every floor that could be the kept one of a type: the one at the start, and each that was served with a
  // signature of the operator's over a version that can be compared.
  predicate Candidate(signed: Signed, key: Bytes, kept: FloorMap, served: seq<FloorMap>, t: string, floor: Floor) {
    || (t in kept && kept[t] == floor)
    || exists i :: && 0 <= i < |served| && t in served[i] && served[i][t] == floor
                   && signed(key, t, floor) && IsSemVer(floor.version)
  }

  predicate AtMost(a: Floor, b: Floor) {
    Precedence(a.version, b.version) == Some(Less) || Precedence(a.version, b.version) == Some(Equal)
  }

  // The kept floor of a type is one of its candidates and none of them is above it: a maximum.
  ghost predicate IsMaximum(
    signed: Signed, key: Bytes, kept: FloorMap, served: seq<FloorMap>, t: string, now: FloorMap)
  {
    && (t in now ==> Candidate(signed, key, kept, served, t, now[t]))
    && forall floor | Candidate(signed, key, kept, served, t, floor) :: t in now && AtMost(floor, now[t])
  }

  lemma TakenIsSemVer(signed: Signed, key: Bytes, kept: FloorMap, served: FloorMap)
    requires AllSemVer(kept)
    ensures AllSemVer(Taken(signed, key, kept, served))
  {
  }

  lemma CandidateOfMore(
    signed: Signed, key: Bytes, kept: FloorMap, served: seq<FloorMap>, last: FloorMap, t: string, floor: Floor)
    ensures Candidate(signed, key, kept, served + [last], t, floor)
       <==> || Candidate(signed, key, kept, served, t, floor)
            || (t in last && last[t] == floor && signed(key, t, floor) && IsSemVer(floor.version))
  {
    var all := served + [last];
    assert all[|served|] == last;
    assert forall i | 0 <= i < |served| :: all[i] == served[i];
  }

  lemma AtMostTransitive(a: Floor, b: Floor, c: Floor)
    requires AtMost(a, b) && AtMost(b, c)
    ensures AtMost(a, c)
  {
    PrecedenceIsTotalPreorder(a.version, b.version, c.version);
  }

  lemma AtMostItself(a: Floor)
    requires IsSemVer(a.version)
    ensures AtMost(a, a)
  {
    PrecedenceIsTotalPreorder(a.version, a.version, a.version);
  }

  lemma AtMostOrAbove(a: Floor, b: Floor)
    requires IsSemVer(a.version) && IsSemVer(b.version)
    ensures if Precedence(a.version, b.version) == Some(Greater) then AtMost(b, a) else AtMost(a, b)
  {
    PrecedenceIsTotalPreorder(a.version, b.version, a.version);
  }

  // One served map: what is kept after it is at least what was kept, and at least what it served.
  lemma TakenIsUpperBound(signed: Signed, key: Bytes, kept: FloorMap, served: FloorMap, t: string)
    requires AllSemVer(kept)
    ensures t in kept ==> AtMost(kept[t], Taken(signed, key, kept, served)[t])
    ensures t in served && Verifies(signed, key, t, served[t]) ==>
              t in Taken(signed, key, kept, served) && AtMost(served[t], Taken(signed, key, kept, served)[t])
  {
    if t in kept {
      AtMostItself(kept[t]);
    }
    if t in served && Verifies(signed, key, t, served[t]) {
      AtMostItself(served[t]);
      if t in kept {
        AtMostOrAbove(served[t], kept[t]);
      }
    }
  }

  lemma OneMoreKeepsMaximum(
    signed: Signed, key: Bytes, kept: FloorMap, served: seq<FloorMap>, last: FloorMap, t: string, now: FloorMap)
    requires AllSemVer(now) && IsMaximum(signed, key, kept, served, t, now)
    ensures IsMaximum(signed, key, kept, served + [last], t, Taken(signed, key, now, last))
  {
    var after := Taken(signed, key, now, last);
    TakenIsUpperBound(signed, key, now, last, t);
    if t in after {
      CandidateOfMore(signed, key, kept, served, last, t, after[t]);
    }
    forall floor | Candidate(signed, key, kept, served + [last], t, floor)
      ensures t in after && AtMost(floor, after[t])
    {
      CandidateOfMore(signed, key, kept, served, last, t, floor);
      if Candidate(signed, key, kept, served, t, floor) {
        AtMostTransitive(floor, now[t], after[t]);
      }
    }
  }

  // For every sequence of served floors, the kept floor of every type is a maximum, in SemVer
  // precedence, of the floor at the start and all served ones that verified.
  lemma {:induction false} KeptFloorIsMaximum(
    signed: Signed, key: Bytes, kept: FloorMap, served: seq<FloorMap>, t: string)
    requires AllSemVer(kept)
    ensures AllSemVer(TakenAll(signed, key, kept, served))
    ensures IsMaximum(signed, key, kept, served, t, TakenAll(signed, key, kept, served))
    decreases |served|
  {
    if served == [] {
      forall floor | Candidate(signed, key, kept, served, t, floor)
        ensures t in kept && AtMost(floor, kept[t])
      {
        AtMostItself(floor);
      }
    } else {
      var most, last := served[..|served| - 1], served[|served| - 1];
      KeptFloorIsMaximum(signed, key, kept, most, t);
      TakenIsSemVer(signed, key, TakenAll(signed, key, kept, most), last);
      assert most + [last] == served;
      OneMoreKeepsMaximum(signed, key, kept, most, last, t, TakenAll(signed, key, kept, most));
    }
  }

  // Nothing but a signed floor of a comparable version ever takes the place of another, or of none.
  lemma ChangedFloorIsSigned(signed: Signed, key: Bytes, kept: FloorMap, served: seq<FloorMap>, t: string)
    requires AllSemVer(kept)
    ensures var now := TakenAll(signed, key, kept, served);
            t in now && (t in kept ==> now[t] != kept[t]) ==> signed(key, t, now[t]) && IsSemVer(now[t].version)
  {
    KeptFloorIsMaximum(signed, key, kept, served, t);
  }

  // And every signed floor of a comparable version counts: the kept one is not below it, and is of its
  // identity when it is above all others.
  lemma SignedFloorCounts(
    signed: Signed, key: Bytes, kept: FloorMap, served: seq<FloorMap>, t: string, i: nat)
    requires AllSemVer(kept) && i < |served| && t in served[i]
    requires signed(key, t, served[i][t]) && IsSemVer(served[i][t].version)
    ensures var now := TakenAll(signed, key, kept, served);
            && t in now && Precedence(now[t].version, served[i][t].version) != Some(Less)
            && ((forall other | Candidate(signed, key, kept, served, t, other) ::
                   Precedence(other.version, served[i][t].version) != Some(Greater)) ==>
                 Identity(now[t].version) == Identity(served[i][t].version))
  {
    var now, floor := TakenAll(signed, key, kept, served), served[i][t];
    KeptFloorIsMaximum(signed, key, kept, served, t);
    assert Candidate(signed, key, kept, served, t, floor);
    PrecedenceIsTotalPreorder(floor.version, now[t].version, floor.version);
    PrecedenceIsTotalPreorder(now[t].version, floor.version, now[t].version);
  }

  // A floor never falls.
  lemma FloorNeverFalls(signed: Signed, key: Bytes, kept: FloorMap, served: seq<FloorMap>, t: string)
    requires AllSemVer(kept) && t in kept
    ensures t in TakenAll(signed, key, kept, served)
    ensures AtMost(kept[t], TakenAll(signed, key, kept, served)[t])
  {
    KeptFloorIsMaximum(signed, key, kept, served, t);
    assert Candidate(signed, key, kept, served, t, kept[t]);
  }

  predicate Above(a: string, b: string) {
    Precedence(a, b) == Some(Greater)
  }

  lemma AboveIsTransitive(a: string, b: string, c: string)
    requires IsSemVer(a) && IsSemVer(b) && IsSemVer(c) && Above(a, b) && Above(b, c)
    ensures Above(a, c)
  {
    PrecedenceIsTotalPreorder(c, b, a);
    PrecedenceIsTotalPreorder(a, b, c);
    PrecedenceIsTotalPreorder(a, c, b);
  }

  lemma TakenIsAbove(signed: Signed, key: Bytes, kept: FloorMap, served: FloorMap, t: string)
    requires t in kept
    ensures var now := Taken(signed, key, kept, served);
            t in now && (now[t] == kept[t] || Above(now[t].version, kept[t].version))
  {
  }

  // And it is replaced by a higher one only: what is as high leaves the kept one in place.
  lemma {:induction false} ReplacedOnlyByHigher(
    signed: Signed, key: Bytes, kept: FloorMap, served: seq<FloorMap>, t: string)
    requires AllSemVer(kept) && t in kept
    ensures var now := TakenAll(signed, key, kept, served);
            t in now && (now[t] == kept[t] || Above(now[t].version, kept[t].version))
    decreases |served|
  {
    if served != [] {
      var most := served[..|served| - 1];
      ReplacedOnlyByHigher(signed, key, kept, most, t);
      var before, now := TakenAll(signed, key, kept, most), TakenAll(signed, key, kept, served);
      TakenIsAbove(signed, key, before, served[|served| - 1], t);
      if now[t] != before[t] && before[t] != kept[t] {
        ChangedFloorIsSigned(signed, key, kept, most, t);
        ChangedFloorIsSigned(signed, key, kept, served, t);
        AboveIsTransitive(now[t].version, before[t].version, kept[t].version);
      }
    }
  }

  // The order in which floors are served does not matter: two sequences that offer a type the same
  // candidates keep floors of one release, or none.
  lemma OrderDoesNotMatter(
    signed: Signed, key: Bytes, kept: FloorMap, served: seq<FloorMap>, other: seq<FloorMap>, t: string)
    requires AllSemVer(kept)
    requires forall floor ::
               Candidate(signed, key, kept, served, t, floor) <==> Candidate(signed, key, kept, other, t, floor)
    ensures var a, b := TakenAll(signed, key, kept, served), TakenAll(signed, key, kept, other);
            && (t in a <==> t in b)
            && (t in a ==> Identity(a[t].version) == Identity(b[t].version))
  {
    KeptFloorIsMaximum(signed, key, kept, served, t);
    KeptFloorIsMaximum(signed, key, kept, other, t);
    var a, b := TakenAll(signed, key, kept, served), TakenAll(signed, key, kept, other);
    if t in a {
      assert Candidate(signed, key, kept, other, t, a[t]);
      assert Candidate(signed, key, kept, served, t, b[t]);
      PrecedenceIsTotalPreorder(a[t].version, b[t].version, a[t].version);
    }
  }

  // ---- Across restarts ------------------------------------------------------------------------

  datatype Event = Take(served: FloorMap, writable: bool) | Restart

  function Step(signed: Signed, key: Option<Bytes>, s: FloorState, e: Event): FloorState {
    match e
    case Take(served, writable) => TakeInto(signed, key, s, served, writable)
    case Restart => FloorState(Opened(s.file), s.file)
  }

  function Steps(signed: Signed, key: Option<Bytes>, s: FloorState, events: seq<Event>): FloorState {
    if events == [] then s
    else Step(signed, key, Steps(signed, key, s, events[..|events| - 1]), events[|events| - 1])
  }

  // Whether the last floor raised in this process reached the file: true when none was raised.
  predicate LastRaiseWritten(signed: Signed, key: Option<Bytes>, s: FloorState, events: seq<Event>)
    decreases |events|
  {
    if events == [] then true
    else
      var before, last := Steps(signed, key, s, events[..|events| - 1]), events[|events| - 1];
      if last.Restart? then true
      else if key.Some? && before.kept.Ok? && AnyRaises(signed, key.value, before.kept.value, last.served)
      then last.writable
      else LastRaiseWritten(signed, key, s, events[..|events| - 1])
  }

  // No floor in the file is above the one kept.
  ghost predicate Behind(file: FloorMap, kept: FloorMap) {
    forall t | t in file :: t in kept && AtMost(file[t], kept[t])
  }

  // Some kept floor is above the file's, or not in it at all.
  ghost predicate Ahead(kept: FloorMap, file: FloorMap) {
    exists t :: t in kept && (t in file ==> Precedence(file[t].version, kept[t].version) == Some(Less))
  }

  ghost predicate FileMatches(s: FloorState, written: bool) {
    && (s.kept.Ok? ==> AllSemVer(s.kept.value))
    && (written ==> Opened(s.file) == s.kept)
    && (!written ==> && s.kept.Ok? && Opened(s.file).Ok?
                     && Behind(Opened(s.file).value, s.kept.value) && Ahead(s.kept.value, Opened(s.file).value))
  }

  lemma UnwrittenRaise(signed: Signed, key: Bytes, kept: FloorMap, served: FloorMap, file: FloorMap)
    requires AllSemVer(kept) && Behind(file, kept) && AnyRaises(signed, key, kept, served)
    ensures var taken := Taken(signed, key, kept, served); Behind(file, taken) && Ahead(taken, file)
  {
    var taken := Taken(signed, key, kept, served);
    forall t | t in file
      ensures t in taken && AtMost(file[t], taken[t])
    {
      TakenIsUpperBound(signed, key, kept, served, t);
      AtMostTransitive(file[t], kept[t], taken[t]);
    }
    var t :| t in served && Raises(signed, key, kept, t, served[t]);
    if t in file {
      BelowTheRaised(file[t], kept[t], served[t]);
    }
    assert t in taken && taken[t] == served[t];
  }

  lemma BelowTheRaised(a: Floor, b: Floor, c: Floor)
    requires AtMost(a, b) && Precedence(c.version, b.version) == Some(Greater)
    ensures Precedence(a.version, c.version) == Some(Less)
  {
    PrecedenceIsTotalPreorder(c.version, b.version, c.version);
    PrecedenceIsTotalPreorder(a.version, b.version, c.version);
  }

  lemma NothingRaised(signed: Signed, key: Bytes, kept: FloorMap, served: FloorMap)
    requires !AnyRaises(signed, key, kept, served)
    ensures Taken(signed, key, kept, served) == kept
  {
  }

  lemma BehindItself(kept: FloorMap)
    requires AllSemVer(kept)
    ensures Behind(kept, kept)
  {
    forall t | t in kept
      ensures AtMost(kept[t], kept[t])
    {
      AtMostItself(kept[t]);
    }
  }

  lemma {:induction false} FileFollows(signed: Signed, key: Option<Bytes>, s: FloorState, events: seq<Event>)
    requires s.kept == Opened(s.file)
    ensures FileMatches(Steps(signed, key, s, events), LastRaiseWritten(signed, key, s, events))
    decreases |events|
  {
    if events != [] {
      var most, last := events[..|events| - 1], events[|events| - 1];
      FileFollows(signed, key, s, most);
      var before := Steps(signed, key, s, most);
      if last.Take? && key.Some? && before.kept.Ok? {
        TakeFollows(signed, key.value, before, LastRaiseWritten(signed, key, s, most), last.served, last.writable);
      }
    }
  }

  lemma TakeFollows(signed: Signed, key: Bytes, s: FloorState, written: bool, served: FloorMap, writable: bool)
    requires s.kept.Ok? && FileMatches(s, written)
    ensures FileMatches(TakeInto(signed, Some(key), s, served, writable),
                        if AnyRaises(signed, key, s.kept.value, served) then writable else written)
  {
    TakenIsSemVer(signed, key, s.kept.value, served);
    if !AnyRaises(signed, key, s.kept.value, served) {
      NothingRaised(signed, key, s.kept.value, served);
    } else if !writable {
      BehindItself(s.kept.value);
      UnwrittenRaise(signed, key, s.kept.value, served, Opened(s.file).value);
    }
  }

  // Over every run of served floors, failed writes and restarts: the next restart changes no floor
  // exactly when the last raise reached the file (or none was made since the last restart).
  lemma RestartKeepsFloorsExactlyWhen(signed: Signed, key: Option<Bytes>, s: FloorState, events: seq<Event>)
    requires s.kept == Opened(s.file)
    ensures var now := Steps(signed, key, s, events);
            Step(signed, key, now, Restart).kept == now.kept <==> LastRaiseWritten(signed, key, s, events)
  {
    FileFollows(signed, key, s, events);
    var now := Steps(signed, key, s, events);
    if !LastRaiseWritten(signed, key, s, events) {
      var file, kept := Opened(now.file).value, now.kept.value;
      var t :| t in kept && (t in file ==> Precedence(file[t].version, kept[t].version) == Some(Less));
      AtMostItself(kept[t]);
      PrecedenceIsTotalPreorder(kept[t].version, kept[t].version, kept[t].version);
    }
  }

  // A raise that did not reach the file is lost at the next start, whatever it was.
  lemma UnwrittenRaiseIsLost(signed: Signed, key: Bytes, s: FloorState, served: FloorMap)
    requires s.kept == Opened(s.file) && s.kept.Ok? && AnyRaises(signed, key, s.kept.value, served)
    ensures var taken := Step(signed, Some(key), s, Take(served, false));
            taken.kept == Ok(Taken(signed, key, s.kept.value, served))
            && Step(signed, Some(key), taken, Restart).kept == s.kept != taken.kept
  {
    var events := [Take(served, false)];
    assert events[..0] == [] && Steps(signed, Some(key), s, []) == s;
    assert Steps(signed, Some(key), s, events) == Step(signed, Some(key), s, events[0]);
    RestartKeepsFloorsExactlyWhen(signed, Some(key), s, events);
  }

  // One such start: no floors, one served and kept, the write fails, and the floor is gone.
  lemma RestartMayLoseAFloor() returns (signed: Signed, key: Bytes, s: FloorState, events: seq<Event>, t: string)
    ensures s.kept == Opened(s.file)
    ensures var now := Steps(signed, Some(key), s, events);
            && now.kept.Ok? && t in now.kept.value
            && Step(signed, Some(key), now, Restart).kept == Ok(map[])
  {
    signed, key, s, t := (key, agentType, floor) => true, [], FloorState(Ok(map[]), Missing), "agent";
    CoreIsSemVer("1", "0", "0");
    events := FirstFloorIsLost(signed, key, s, t, Floor(Join(["1", "0", "0"], '.'), ""));
  }

  lemma FirstFloorIsLost(signed: Signed, key: Bytes, s: FloorState, t: string, floor: Floor)
    returns (events: seq<Event>)
    requires s == FloorState(Ok(map[]), Missing) && Verifies(signed, key, t, floor)
    ensures var now := Steps(signed, Some(key), s, events);
            && now.kept.Ok? && t in now.kept.value
            && Step(signed, Some(key), now, Restart).kept == Ok(map[])
  {
    var served: FloorMap := map[t := floor];
    events := [Take(served, false)];
    assert events[..0] == [] && Steps(signed, Some(key), s, []) == s;
    assert t in served && Raising(signed, key, s.kept.value)(t, served[t]);
    UnwrittenRaiseIsLost(signed, key, s, served);
  }

  // A file is taken whole or not at all: no floors only for no file or an empty one, and never one
  // whose version could not be compared.
  lemma OpenedIsAllOrNothing(file: Stored)
    ensures Opened(file).Ok? ==> AllSemVer(Opened(file).value)
    ensures Opened(file) == Ok(map[]) <==> file == Missing || file == Holds(map[])
    ensures Opened(file).Ok? && Opened(file).value != map[] ==> file == Holds(Opened(file).value)
  {
  }

  // What the Client writes can be read: a file it could open once opens after every run.
  lemma {:induction false} FileStaysReadable(signed: Signed, key: Option<Bytes>, s: FloorState, events: seq<Event>)
    requires s.kept == Opened(s.file) && s.kept.Ok?
    ensures var now := Steps(signed, key, s, events);
            now.kept.Ok? && AllSemVer(now.kept.value) && Opened(now.file).Ok?
    decreases |events|
  {
    OpenedIsAllOrNothing(s.file);
    if events != [] {
      var most, last := events[..|events| - 1], events[|events| - 1];
      FileStaysReadable(signed, key, s, most);
      var before := Steps(signed, key, s, most);
      OpenedIsAllOrNothing(before.file);
      if last.Take? && key.Some? {
        TakenIsSemVer(signed, key.value, before.kept.value, last.served);
      }
    }
  }

  // From an unreadable file no run of served floors and restarts leads anywhere.
  lemma {:induction false} UnreadableLatches(signed: Signed, key: Option<Bytes>, s: FloorState, events: seq<Event>)
    requires s.kept == Opened(s.file) && s.kept.Err?
    ensures Steps(signed, key, s, events) == s
    decreases |events|
  {
    if events != [] {
      UnreadableLatches(signed, key, s, events[..|events| - 1]);
    }
  }
}
