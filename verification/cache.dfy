/** The snapshot store: agents, features and projectiles given up front,
    each class in its own map; agents and features are also registered in
    a spatial index of their own, projectiles are not indexed. */
module Cache {
  import opened Geometry
  import opened Ids
  import opened Wrappers
  import opened SpatialIndex
  import Agent
  import Feature
  import Projectile

  /** The entities to load, each already carrying its identity. */
  datatype O = O(agents: seq<Agent.A>, features: seq<Feature.F>, projectiles: seq<Projectile.P>)

  datatype DB = DB(
    agents: map<Id, Agent.A>,
    features: map<Id, Feature.F>,
    projectiles: map<Id, Projectile.P>,
    agentsIndex: Index,
    featuresIndex: Index)

  function AgentKey(a: Agent.A): Id { a.id }
  function FeatureKey(f: Feature.F): Id { f.id }
  function ProjectileKey(p: Projectile.P): Id { p.id }

  /** The entities of `s` keyed by their identity, loaded in order: a later
      entity replaces an earlier one with the same identity. */
  function Keyed<T>(s: seq<T>, key: T -> Id): map<Id, T> {
    if |s| == 0 then map[]
    else Keyed(s[..|s| - 1], key)[key(s[|s| - 1]) := s[|s| - 1]]
  }

  /** The boxes of the entities of `s` registered in order into an empty
      index; a registration refused because the identity is already
      present is ignored, so the earliest entity keeps the slot. */
  function Indexed<T>(s: seq<T>, key: T -> Id, box: T -> Rect): Index {
    if |s| == 0 then Empty
    else
      var prev := Indexed(s[..|s| - 1], key, box);
      match Insert(prev, key(s[|s| - 1]), box(s[|s| - 1]))
      case Success(next) => next
      case Failure(_) => prev
  }

  /** The keyed map holds exactly the identities of the entities loaded. */
  lemma {:induction false} KeyedKeys<T>(s: seq<T>, key: T -> Id, x: Id)
    ensures x in Keyed(s, key) <==> exists i :: 0 <= i < |s| && key(s[i]) == x
  {
    if |s| > 0 {
      var init := s[..|s| - 1];
      KeyedKeys(init, key, x);
      if exists i :: 0 <= i < |init| && key(init[i]) == x {
        var i :| 0 <= i < |init| && key(init[i]) == x;
        assert s[i] == init[i];
      }
      if exists i :: 0 <= i < |s| && key(s[i]) == x {
        var i :| 0 <= i < |s| && key(s[i]) == x;
        if i < |s| - 1 {
          assert init[i] == s[i];
        }
      }
    }
  }

  /** The entity stored under an identity is the last one loaded with it. */
  lemma {:induction false} KeyedLastWins<T>(s: seq<T>, key: T -> Id, i: int)
    requires 0 <= i < |s|
    requires forall j :: i < j < |s| ==> key(s[j]) != key(s[i])
    ensures key(s[i]) in Keyed(s, key) && Keyed(s, key)[key(s[i])] == s[i]
  {
    if i < |s| - 1 {
      var init := s[..|s| - 1];
      assert init[i] == s[i];
      forall j | i < j < |init| ensures key(init[j]) != key(init[i]) {
        assert init[j] == s[j];
      }
      KeyedLastWins(init, key, i);
    }
  }

  /** The index holds exactly the identities of the entities loaded. */
  lemma {:induction false} IndexedKeys<T>(s: seq<T>, key: T -> Id, box: T -> Rect, x: Id)
    ensures x in Indexed(s, key, box).boxes <==> exists i :: 0 <= i < |s| && key(s[i]) == x
  {
    if |s| > 0 {
      var init := s[..|s| - 1];
      var prev := Indexed(init, key, box);
      IndexedKeys(init, key, box, x);
      var ins := Insert(prev, key(s[|s| - 1]), box(s[|s| - 1]));
      if ins.Success? {
        assert Same(prev, ins.value, x) || x == key(s[|s| - 1]);
      }
      if exists i :: 0 <= i < |init| && key(init[i]) == x {
        var i :| 0 <= i < |init| && key(init[i]) == x;
        assert s[i] == init[i];
      }
      if exists i :: 0 <= i < |s| && key(s[i]) == x {
        var i :| 0 <= i < |s| && key(s[i]) == x;
        if i < |s| - 1 {
          assert init[i] == s[i];
        }
      }
    }
  }

  /** The box registered under an identity is that of the first entity
      loaded with it. */
  lemma {:induction false} IndexedFirstWins<T>(s: seq<T>, key: T -> Id, box: T -> Rect, i: int)
    requires 0 <= i < |s|
    requires forall j :: 0 <= j < i ==> key(s[j]) != key(s[i])
    ensures key(s[i]) in Indexed(s, key, box).boxes && Indexed(s, key, box).boxes[key(s[i])] == box(s[i])
  {
    var init := s[..|s| - 1];
    var prev := Indexed(init, key, box);
    var ins := Insert(prev, key(s[|s| - 1]), box(s[|s| - 1]));
    if i == |s| - 1 {
      IndexedKeys(init, key, box, key(s[i]));
      forall j | 0 <= j < |init| ensures key(init[j]) != key(s[i]) {
        assert init[j] == s[j];
      }
    } else {
      assert init[i] == s[i];
      forall j | 0 <= j < i ensures key(init[j]) != key(init[i]) {
        assert init[j] == s[j];
      }
      IndexedFirstWins(init, key, box, i);
      if ins.Success? {
        assert Same(prev, ins.value, key(s[i]));
      }
    }
  }

  /** Loads the entities into their maps and indexes, class by class. */
  function New(o: O): (db: DB)
    ensures forall x :: x in db.agents <==> exists i :: 0 <= i < |o.agents| && o.agents[i].id == x
    ensures forall x :: x in db.features <==> exists i :: 0 <= i < |o.features| && o.features[i].id == x
    ensures forall x :: x in db.projectiles <==> exists i :: 0 <= i < |o.projectiles| && o.projectiles[i].id == x
    ensures db.agentsIndex.boxes.Keys == db.agents.Keys
    ensures db.featuresIndex.boxes.Keys == db.features.Keys
  {
    var db := DB(Keyed(o.agents, AgentKey), Keyed(o.features, FeatureKey), Keyed(o.projectiles, ProjectileKey),
                 Indexed(o.agents, AgentKey, Agent.AABB), Indexed(o.features, FeatureKey, Feature.AABB));
    assert forall x :: x in db.agents <==> exists i :: 0 <= i < |o.agents| && o.agents[i].id == x by {
      forall x ensures x in db.agents <==> exists i :: 0 <= i < |o.agents| && o.agents[i].id == x {
        KeyedKeys(o.agents, AgentKey, x);
      }
    }
    assert forall x :: x in db.features <==> exists i :: 0 <= i < |o.features| && o.features[i].id == x by {
      forall x ensures x in db.features <==> exists i :: 0 <= i < |o.features| && o.features[i].id == x {
        KeyedKeys(o.features, FeatureKey, x);
      }
    }
    assert forall x :: x in db.projectiles <==> exists i :: 0 <= i < |o.projectiles| && o.projectiles[i].id == x by {
      forall x ensures x in db.projectiles <==> exists i :: 0 <= i < |o.projectiles| && o.projectiles[i].id == x {
        KeyedKeys(o.projectiles, ProjectileKey, x);
      }
    }
    assert db.agentsIndex.boxes.Keys == db.agents.Keys by {
      forall x ensures x in db.agentsIndex.boxes <==> x in db.agents {
        IndexedKeys(o.agents, AgentKey, Agent.AABB, x);
        KeyedKeys(o.agents, AgentKey, x);
      }
    }
    assert db.featuresIndex.boxes.Keys == db.features.Keys by {
      forall x ensures x in db.featuresIndex.boxes <==> x in db.features {
        IndexedKeys(o.features, FeatureKey, Feature.AABB, x);
        KeyedKeys(o.features, FeatureKey, x);
      }
    }
    db
  }

  /** The store's invariant: agents and features mirror their indexes, and
      projectiles are stored under their own identities. */
  ghost predicate Valid(db: DB) {
    Mirrors(db.agents, db.agentsIndex, AgentKey, Agent.AABB)
    && Mirrors(db.features, db.featuresIndex, FeatureKey, Feature.AABB)
    && forall x :: x in db.projectiles ==> db.projectiles[x].id == x
  }

  /** No two entities of `s` share an identity. */
  ghost predicate Distinct<T>(s: seq<T>, key: T -> Id) {
    forall i, j :: 0 <= i < j < |s| ==> key(s[i]) != key(s[j])
  }

  /** With identities distinct within each class, loading yields a valid
      store in which every entity given is stored under its own identity,
      and agents and features are indexed with their boxes. */
  lemma NewMirrors(o: O)
    requires Distinct(o.agents, AgentKey) && Distinct(o.features, FeatureKey)
    requires Distinct(o.projectiles, ProjectileKey)
    ensures Valid(New(o))
    ensures forall i :: 0 <= i < |o.agents| ==> New(o).agents[o.agents[i].id] == o.agents[i]
    ensures forall i :: 0 <= i < |o.features| ==> New(o).features[o.features[i].id] == o.features[i]
    ensures forall i :: 0 <= i < |o.projectiles| ==> New(o).projectiles[o.projectiles[i].id] == o.projectiles[i]
  {
    var db := New(o);
    forall i | 0 <= i < |o.agents|
      ensures db.agents[o.agents[i].id] == o.agents[i]
      ensures db.agentsIndex.boxes[o.agents[i].id] == Agent.AABB(o.agents[i])
    {
      KeyedLastWins(o.agents, AgentKey, i);
      IndexedFirstWins(o.agents, AgentKey, Agent.AABB, i);
    }
    forall i | 0 <= i < |o.features|
      ensures db.features[o.features[i].id] == o.features[i]
      ensures db.featuresIndex.boxes[o.features[i].id] == Feature.AABB(o.features[i])
    {
      KeyedLastWins(o.features, FeatureKey, i);
      IndexedFirstWins(o.features, FeatureKey, Feature.AABB, i);
    }
    forall i | 0 <= i < |o.projectiles|
      ensures db.projectiles[o.projectiles[i].id] == o.projectiles[i]
    {
      KeyedLastWins(o.projectiles, ProjectileKey, i);
    }
  }

  /** Two agents given with the same identity: the map keeps the second,
      while the index keeps the box of the first, so the store no longer
      mirrors its index. */
  lemma NewDuplicateDiverges(a: Agent.A, b: Agent.A)
    requires a.id == b.id && Agent.AABB(a) != Agent.AABB(b)
    ensures var db := New(O([a, b], [], []));
            db.agents[a.id] == b && db.agentsIndex.boxes[a.id] == Agent.AABB(a)
            && !Valid(db)
  {
    var s := [a, b];
    KeyedLastWins(s, AgentKey, 1);
    IndexedFirstWins(s, AgentKey, Agent.AABB, 0);
  }

  function GetAgentOrDie(db: DB, x: Id): (r: Result<Agent.A>)
    ensures r.Success? <==> x in db.agents
    ensures r.Success? ==> r.value == db.agents[x]
    ensures r.Failure? ==> r.error == NotFound
  {
    if x !in db.agents then Failure(NotFound) else Success(db.agents[x])
  }

  function GetFeatureOrDie(db: DB, x: Id): (r: Result<Feature.F>)
    ensures r.Success? <==> x in db.features
    ensures r.Success? ==> r.value == db.features[x]
    ensures r.Failure? ==> r.error == NotFound
  {
    if x !in db.features then Failure(NotFound) else Success(db.features[x])
  }

  function GetProjectileOrDie(db: DB, x: Id): (r: Result<Projectile.P>)
    ensures r.Success? <==> x in db.projectiles
    ensures r.Success? ==> r.value == db.projectiles[x]
    ensures r.Failure? ==> r.error == NotFound
  {
    if x !in db.projectiles then Failure(NotFound) else Success(db.projectiles[x])
  }

  /** Removes an agent from its map and index; an absent identity is an error. */
  function DeleteAgent(db: DB, x: Id): (r: Result<DB>)
    ensures x !in db.agents ==> r == Failure(NotFound)
    ensures r.Success? <==> x in db.agents && x in db.agentsIndex.boxes
    ensures r.Success? ==>
              x !in r.value.agents && x !in r.value.agentsIndex.boxes
              && (forall y :: y != x ==> SameEntry(db.agents, r.value.agents, y) && Same(db.agentsIndex, r.value.agentsIndex, y))
              && r.value.features == db.features && r.value.featuresIndex == db.featuresIndex
              && r.value.projectiles == db.projectiles
  {
    if x !in db.agents then Failure(NotFound)
    else
      var agents := db.agents - {x};
      match Remove(db.agentsIndex, x)
      case Failure(e) => Failure(e)
      case Success(ix) => Success(db.(agents := agents, agentsIndex := ix))
  }

  /** On a valid store, deleting succeeds exactly when the agent is stored,
      keeps the store valid, and the agent's identity is then unknown. */
  lemma DeletePreservesValid(db: DB, x: Id)
    requires Valid(db)
    ensures DeleteAgent(db, x).Success? <==> x in db.agents
    ensures DeleteAgent(db, x).Success? ==>
              Valid(DeleteAgent(db, x).value) && GetAgentOrDie(DeleteAgent(db, x).value, x) == Failure(NotFound)
  {
    if x in db.agents {
      RemoveMirrors(db.agents, db.agentsIndex, AgentKey, Agent.AABB, x);
    }
  }

  /** The agents behind the broad-phase candidates for `q` that pass
      `keep`, in candidate order. */
  method QueryAgents(db: DB, q: Rect, cands: seq<Id>, keep: Agent.A -> bool) returns (r: seq<Agent.A>)
    requires Valid(db) && IsBroadPhase(db.agentsIndex, q, cands)
    ensures forall a :: a in r ==> keep(a) && a.id in cands && a.id in db.agents && db.agents[a.id] == a
    ensures forall x :: x in db.agents && !Disjoint(Agent.AABB(db.agents[x]), q) && keep(db.agents[x])
                        ==> db.agents[x] in r
    ensures |r| <= |cands|
    ensures (forall i :: 0 <= i < |cands| ==> cands[i] in db.agents) && r == Select(db.agents, cands, keep)
  {
    QueryExact(db.agents, db.agentsIndex, AgentKey, Agent.AABB, q, cands, keep);
    r := Query(db.agents, cands, keep);
    if |cands| > 0 {
      SelectMembers(db.agents, cands, keep, db.agents[cands[0]]);
    }
  }

  /** The features behind the broad-phase candidates for `q` that pass
      `keep`, in candidate order. */
  method QueryFeatures(db: DB, q: Rect, cands: seq<Id>, keep: Feature.F -> bool) returns (r: seq<Feature.F>)
    requires Valid(db) && IsBroadPhase(db.featuresIndex, q, cands)
    ensures forall f :: f in r ==> keep(f) && f.id in cands && f.id in db.features && db.features[f.id] == f
    ensures forall x :: x in db.features && !Disjoint(Feature.AABB(db.features[x]), q) && keep(db.features[x])
                        ==> db.features[x] in r
    ensures |r| <= |cands|
    ensures (forall i :: 0 <= i < |cands| ==> cands[i] in db.features) && r == Select(db.features, cands, keep)
  {
    QueryExact(db.features, db.featuresIndex, FeatureKey, Feature.AABB, q, cands, keep);
    r := Query(db.features, cands, keep);
    if |cands| > 0 {
      SelectMembers(db.features, cands, keep, db.features[cands[0]]);
    }
  }
}
