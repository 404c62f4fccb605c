/**
 Floors and downloads together: which packages the Engine refuses (`engine.rs`), in terms of every floor
 the Server has served (`floors.rs`) rather than of the one that happens to be kept.
 */
module FloorGate {
  import opened Outcomes
  import opened SemVer
  import Engine
  import EngineRuns
  import Floors

  // What the Engine is told of the floors.
  function Reading(kept: Result<Floors.FloorMap, string>): Engine.FloorOf {
    (agentType: string) => Floors.FloorFor(kept, agentType)
  }

  // Some floor this type had at the start, or was served with a good signature, is above the version.
  ghost predicate BelowSomeFloor(
    signed: Floors.Signed, key: Bytes, kept: Floors.FloorMap, served: seq<Floors.FloorMap>, t: string, version: string)
  {
    exists floor ::
      Floors.Candidate(signed, key, kept, served, t, floor) && Precedence(version, floor.version) == Some(Less)
  }

  lemma BelowTheMaximum(version: string, floor: Floors.Floor, most: Floors.Floor)
    requires Precedence(version, floor.version) == Some(Less) && Floors.AtMost(floor, most)
    ensures Precedence(version, most.version) == Some(Less)
  {
    PrecedenceIsTotalPreorder(version, floor.version, most.version);
  }

  // A maximum of the floors is above a version exactly when one of them is.
  lemma MaximumDecides(
    signed: Floors.Signed, key: Bytes, kept: Floors.FloorMap, served: seq<Floors.FloorMap>, t: string,
    now: Floors.FloorMap, version: string)
    requires Floors.IsMaximum(signed, key, kept, served, t, now)
    ensures t in now && Precedence(version, now[t].version) == Some(Less)
       <==> BelowSomeFloor(signed, key, kept, served, t, version)
  {
    if BelowSomeFloor(signed, key, kept, served, t, version) {
      var floor :|
        Floors.Candidate(signed, key, kept, served, t, floor) && Precedence(version, floor.version) == Some(Less);
      BelowTheMaximum(version, floor, now[t]);
    }
  }

  // After any sequence of served floors, an Agent is refused a version exactly when it is held to floors
  // and the version is below one of all those of its type, in whatever order they came.
  lemma RefusedExactlyWhenBelowAFloor(
    signed: Floors.Signed, key: Bytes, kept: Floors.FloorMap, served: seq<Floors.FloorMap>,
    agent: Engine.Agent, version: string)
    requires Floors.AllSemVer(kept)
    ensures var floor := Reading(Ok(Floors.TakenAll(signed, key, kept, served)));
            Engine.FloorRefusal(agent, version, floor).Some?
            <==> && agent.heldToFloors && !agent.ownPackage
                 && BelowSomeFloor(signed, key, kept, served, agent.serviceName, version)
  {
    var now := Floors.TakenAll(signed, key, kept, served);
    Floors.KeptFloorIsMaximum(signed, key, kept, served, agent.serviceName);
    MaximumDecides(signed, key, kept, served, agent.serviceName, now, version);
    RefusalReads(agent, version, now);
  }

  lemma RefusalReads(agent: Engine.Agent, version: string, now: Floors.FloorMap)
    ensures Engine.FloorRefusal(agent, version, Reading(Ok(now))).Some?
       <==> && agent.heldToFloors && !agent.ownPackage && agent.serviceName in now
            && Precedence(version, now[agent.serviceName].version) == Some(Less)
  {
  }

  // Whether a queued download is below a floor its Agent is held to.
  ghost predicate HeldBack(
    signed: Floors.Signed, key: Bytes, kept: Floors.FloorMap, served: seq<Floors.FloorMap>,
    slots: seq<Engine.Slot>, queued: Engine.Queued)
  {
    && queued.0 < |slots|
    && var agent := slots[queued.0].agent;
       && agent.heldToFloors && !agent.ownPackage
       && BelowSomeFloor(signed, key, kept, served, agent.serviceName, queued.1.package.version)
  }

  // So what is left of the queue is exactly the downloads below none of all the floors their Agents are
  // held to, in the same order.
  lemma QueueIsHeldToAllFloors(
    signed: Floors.Signed, key: Bytes, kept: Floors.FloorMap, served: seq<Floors.FloorMap>,
    slots: seq<Engine.Slot>, queue: seq<Engine.Queued>)
    returns (at: seq<nat>)
    requires Floors.AllSemVer(kept)
    ensures var left := Engine.Kept(slots, queue, Reading(Ok(Floors.TakenAll(signed, key, kept, served))));
            && |at| == |left| && EngineRuns.Increasing(at, |queue|)
            && (forall k | 0 <= k < |at| :: left[k] == queue[at[k]])
    ensures forall k | 0 <= k < |queue| :: k in at <==> !HeldBack(signed, key, kept, served, slots, queue[k])
  {
    var floor := Reading(Ok(Floors.TakenAll(signed, key, kept, served)));
    at := EngineRuns.KeptInOrder(slots, queue, floor);
    forall k | 0 <= k < |queue|
      ensures k in at <==> !HeldBack(signed, key, kept, served, slots, queue[k])
    {
      if queue[k].0 < |slots| {
        RefusedExactlyWhenBelowAFloor(
          signed, key, kept, served, slots[queue[k].0].agent, queue[k].1.package.version);
      }
    }
  }

  // An unreadable floors file refuses every package of an Agent held to floors.
  lemma UnreadableRefusesAll(agent: Engine.Agent, version: string, reason: string)
    ensures Engine.FloorRefusal(agent, version, Reading(Err(reason)))
         == if agent.heldToFloors && !agent.ownPackage then Some(reason) else None
  {
  }
}
