/** The counter-based agent store: a map from identity to agent, a spatial
    index mirroring each agent's bounding box, and the counter that hands
    out identities. */
module Database {
  import opened Geometry
  import opened Ids
  import opened Wrappers
  import opened SpatialIndex
  import Flags
  import Agent

  datatype DB = DB(agents: map<Id, Agent.A>, index: Index, counter: Id)

  /** The store after an insert, together with the insert's outcome. */
  datatype Inserted = Inserted(db: DB, result: Result<Agent.A>)

  function Key(a: Agent.A): Id { a.id }

  function Box(a: Agent.A): Rect { Agent.AABB(a) }

  /** The store's invariant: the map and the index mirror each other, and
      every identity handed out so far is below the counter. */
  ghost predicate Valid(db: DB) {
    Mirrors(db.agents, db.index, Key, Box)
    && forall x :: x in db.agents ==> x < db.counter
  }

  /** An empty store whose counter starts at 0. */
  function New(): (db: DB)
    ensures Valid(db) && db.agents == map[] && db.counter == 0
  {
    DB(map[], Empty, 0)
  }

  /** Looks up an agent; an absent identity is an error. */
  function AgentGetOrDie(db: DB, x: Id): (r: Result<Agent.A>)
    ensures r.Success? <==> x in db.agents
    ensures r.Success? ==> r.value == db.agents[x]
    ensures r.Failure? ==> r.error == NotFound
  {
    if x !in db.agents then Failure(NotFound) else Success(db.agents[x])
  }

  /** Inserts an agent built from `o` under the current counter value.
      The counter advances before the options are validated, so a refused
      insert still consumes an identity; the store is returned alongside
      the outcome. When the index refuses the identity, the agent has
      already been written to the map, and the store keeps it there. */
  function AgentInsert(db: DB, o: Agent.O): (r: Inserted)
    ensures r.db.counter == Next(db.counter)
    ensures r.result.Success? <==> Flags.Validate(o.flags) && db.counter !in db.index.boxes
    ensures !Flags.Validate(o.flags) ==>
              r.result == Failure(InvalidEntity) && r.db.agents == db.agents && r.db.index == db.index
    ensures r.result.Success? ==>
              var a := r.result.value;
              a.id == db.counter && Agent.Options(a) == o.(id := db.counter)
              && a.id in r.db.agents && r.db.agents[a.id] == a
              && a.id in r.db.index.boxes && r.db.index.boxes[a.id] == Agent.AABB(a)
              && (forall y :: y != a.id ==> SameEntry(db.agents, r.db.agents, y) && Same(db.index, r.db.index, y))
    ensures Flags.Validate(o.flags) && db.counter in db.index.boxes ==>
              && r.result == Failure(IndexFailure) && r.db.index == db.index
              && db.counter in r.db.agents && r.db.agents[db.counter].id == db.counter
              && Agent.Options(r.db.agents[db.counter]) == o.(id := db.counter)
              && (forall y :: y != db.counter ==> SameEntry(db.agents, r.db.agents, y))
  {
    var x := db.counter;
    var next := db.(counter := Next(db.counter));
    match Agent.New(o)
    case Failure(e) => Inserted(next, Failure(e))
    case Success(a0) =>
      var a := Agent.SetID(a0, x);
      var agents := next.agents[x := a];
      match Insert(next.index, x, Agent.AABB(a))
      case Failure(e) => Inserted(next.(agents := agents), Failure(e))
      case Success(ix) => Inserted(DB(agents, ix, next.counter), Success(a))
  }

  /** Removes an agent from the map and the index; an absent identity is an error. */
  function AgentDelete(db: DB, x: Id): (r: Result<DB>)
    ensures x !in db.agents ==> r == Failure(NotFound)
    ensures r.Success? <==> x in db.agents && x in db.index.boxes
    ensures r.Success? ==>
              x !in r.value.agents && x !in r.value.index.boxes && r.value.counter == db.counter
              && (forall y :: y != x ==> SameEntry(db.agents, r.value.agents, y) && Same(db.index, r.value.index, y))
  {
    if x !in db.agents then Failure(NotFound)
    else
      var agents := db.agents - {x};
      match Remove(db.index, x)
      case Failure(e) => Failure(e)
      case Success(ix) => Success(db.(agents := agents, index := ix))
  }

  /** The agents behind the broad-phase candidates for `q` that pass
      `keep`, in candidate order. */
  method AgentQuery(db: DB, q: Rect, cands: seq<Id>, keep: Agent.A -> bool) returns (r: seq<Agent.A>)
    requires Valid(db) && IsBroadPhase(db.index, q, cands)
    ensures forall a :: a in r ==> keep(a) && a.id in cands && a.id in db.agents && db.agents[a.id] == a
    ensures forall x :: x in db.agents && !Disjoint(Agent.AABB(db.agents[x]), q) && keep(db.agents[x])
                        ==> db.agents[x] in r
    ensures |r| <= |cands|
    ensures (forall i :: 0 <= i < |cands| ==> cands[i] in db.agents) && r == Select(db.agents, cands, keep)
  {
    QueryExact(db.agents, db.index, Key, Box, q, cands, keep);
    r := Query(db.agents, cands, keep);
    if |cands| > 0 {
      SelectMembers(db.agents, cands, keep, db.agents[cands[0]]);
    }
  }

  /** On a valid store whose counter has room, an insert succeeds exactly
      when the flags are valid, hands out an identity not in use, and keeps
      the store valid. */
  lemma InsertPreservesValid(db: DB, o: Agent.O)
    requires Valid(db) && db.counter + 1 < IdLimit
    ensures AgentInsert(db, o).result.Success? <==> Flags.Validate(o.flags)
    ensures AgentInsert(db, o).result.Success? ==> AgentInsert(db, o).result.value.id !in db.agents
    ensures Valid(AgentInsert(db, o).db)
  {
    var res := AgentInsert(db, o).result;
    assert db.counter !in db.agents;
    if res.Success? {
      var a := res.value;
      InsertMirrors(db.agents, db.index, Key, Box, a);
    }
  }

  /** On a valid store, a delete succeeds exactly when the identity is
      stored, and keeps the store valid. */
  lemma DeletePreservesValid(db: DB, x: Id)
    requires Valid(db)
    ensures AgentDelete(db, x).Success? <==> x in db.agents
    ensures AgentDelete(db, x).Success? ==> Valid(AgentDelete(db, x).value)
  {
    if x in db.agents {
      RemoveMirrors(db.agents, db.index, Key, Box, x);
    }
  }

  /** An identity is not handed out again after its agent is deleted. */
  lemma IdsNeverReused(db: DB, x: Id, o: Agent.O)
    requires Valid(db) && x in db.agents && db.counter + 1 < IdLimit
    ensures AgentDelete(db, x).Success?
    ensures var r := AgentInsert(AgentDelete(db, x).value, o).result;
            r.Success? ==> r.value.id != x
  {
    DeletePreservesValid(db, x);
  }

  /** A refused insert still consumes an identity: the next successful
      insert does not get the identity the refused one would have had. */
  lemma RefusedInsertConsumesId(db: DB, bad: Agent.O, good: Agent.O)
    requires Valid(db) && db.counter + 2 < IdLimit
    requires !Flags.Validate(bad.flags) && Flags.Validate(good.flags)
    ensures var first := AgentInsert(db, bad);
            var second := AgentInsert(first.db, good);
            first.result.Failure? && second.result.Success? && second.result.value.id == db.counter + 1
  {
    InsertPreservesValid(db, bad);
    InsertPreservesValid(AgentInsert(db, bad).db, good);
  }

  /** Starting from an empty store, successful inserts hand out 0, 1, 2, ... */
  lemma FirstIds(o: Agent.O, p: Agent.O)
    requires Flags.Validate(o.flags) && Flags.Validate(p.flags)
    ensures var first := AgentInsert(New(), o);
            var second := AgentInsert(first.db, p);
            first.result == Success(Agent.A(0, o.position, o.velocity, o.targetVelocity, o.heading, o.radius,
                                            o.maxVelocity, o.maxAngularVelocity, o.maxAcceleration, o.flags))
            && second.result.Success? && second.result.value.id == 1
            && second.db.counter == 2 && second.db.agents.Keys == {0, 1}
  {
    InsertPreservesValid(New(), o);
    InsertPreservesValid(AgentInsert(New(), o).db, p);
  }
}
