/** Pairwise predicates that decide whether two entities collide, and
    whether one agent may run over another. */
module Filters {
  import opened Geometry
  import opened Ids
  import Flags
  import Agent
  import Feature
  import H = Hyperrectangle

  /** What a filter reads of an agent: the record itself together with its
      team tag and its size class, which the record does not carry. */
  datatype AgentView = AgentView(agent: Agent.A, team: Team, size: bv64)

  /** Whether a mask claims to be in the air. */
  predicate Airborne(m: bv64) {
    m & Flags.FTerrainAir != 0
  }

  /** Two agents may overlap when exactly one of them is in the air. */
  function AgentOnDifferentLayers(a: AgentView, b: AgentView): (diff: bool)
    ensures diff <==> Airborne(a.agent.flags) != Airborne(b.agent.flags)
  {
    (a.agent.flags ^ b.agent.flags) & Flags.FTerrainAir == Flags.FTerrainAir
  }

  predicate AgentIsTeammate(a: AgentView, b: AgentView) {
    a.team == b.team
  }

  /** Whether `a` may be run over by `b`: an opponent on the same layer
      with a strictly larger size class. */
  function AgentIsSquishable(a: AgentView, b: AgentView): (s: bool)
    ensures s ==> !AgentIsTeammate(a, b) && !AgentOnDifferentLayers(a, b)
    ensures s ==> a.size < b.size
  {
    if AgentIsTeammate(a, b) then false
    else if AgentOnDifferentLayers(a, b) then false
    else a.size < b.size
  }

  /** Whether two distinct agents on the same layer physically overlap: the
      distance between the centres is at most the sum of the radii. */
  function AgentIsColliding(a: AgentView, b: AgentView): (hit: bool)
    ensures hit ==> a.agent.id != b.agent.id && !AgentOnDifferentLayers(a, b)
  {
    if a.agent.id == b.agent.id then false
    else if AgentOnDifferentLayers(a, b) then false
    else
      var r := a.agent.radius + b.agent.radius;
      if SqDist(a.agent.position, b.agent.position) > Sq(r) then false
      else true
  }

  /** A collision that blocks: the agents overlap and neither teammates nor
      a larger `b` let `a` be run over. */
  function AgentIsCollidingNotSquishable(a: AgentView, b: AgentView): (hit: bool)
    ensures hit ==> AgentIsColliding(a, b) && !AgentIsSquishable(a, b)
    ensures AgentIsTeammate(a, b) ==> (hit <==> AgentIsColliding(a, b))
    ensures AgentIsColliding(a, b) && !(a.size < b.size) ==> hit
    ensures hit <==> AgentIsColliding(a, b) && (AgentIsTeammate(a, b) || !(a.size < b.size))
  {
    !AgentIsSquishable(a, b) && AgentIsColliding(a, b)
  }

  /** An agent and a feature may overlap when exactly one of them is in the air. */
  function FeatureOnDifferentLayers(a: AgentView, f: Feature.F): (diff: bool)
    ensures diff <==> Airborne(a.agent.flags) != Airborne(f.flags)
  {
    if (a.agent.flags ^ f.flags) & Flags.FTerrainAir == Flags.FTerrainAir then true
    else false
  }

  /** A real contact between a disc of non-negative radius and a
      well-formed rectangle passes both the box test and the circle test. */
  lemma ContactPassesTests(a: Agent.A, r: Rect)
    ensures a.radius >= 0.0 && WellFormed(r) && DiscMeetsRect(r, a.position, a.radius)
            ==> !Disjoint(Agent.AABB(a), r) && H.IntersectCircle(r, a.position, a.radius)
  {
    if a.radius >= 0.0 && WellFormed(r) && DiscMeetsRect(r, a.position, a.radius) {
      var q :| In(r, q) && InDisc(a.position, a.radius, q);
      CentredEnclosesDisc(a.position, a.radius, q);
      assert In(Agent.AABB(a), q);
      H.IntersectCircleNoFalseNegatives(r, a.position, a.radius);
    }
  }

  /** Whether the agent's disc touches the feature's rectangle: same layer,
      the bounding boxes overlap, and the rectangle passes the circle test.
      Every real contact on the same layer is reported; a report places the
      centre near the rectangle's bands, but not necessarily in contact. */
  function AgentIsCollidingWithFeature(a: AgentView, f: Feature.F): (hit: bool)
    ensures hit ==> !FeatureOnDifferentLayers(a, f) && !Disjoint(Agent.AABB(a.agent), Feature.AABB(f))
    ensures hit && WellFormed(Feature.AABB(f)) ==> H.NearBands(Feature.AABB(f), a.agent.position, a.agent.radius)
    ensures && !FeatureOnDifferentLayers(a, f) && a.agent.radius >= 0.0
            && WellFormed(Feature.AABB(f)) && DiscMeetsRect(Feature.AABB(f), a.agent.position, a.agent.radius)
            ==> hit
  {
    ContactPassesTests(a.agent, Feature.AABB(f));
    if FeatureOnDifferentLayers(a, f) then false
    else if Disjoint(Agent.AABB(a.agent), Feature.AABB(f)) then false
    else H.IntersectCircle(Feature.AABB(f), a.agent.position, a.agent.radius)
  }

  /** The layer and collision relations between agents do not depend on the
      order of the arguments. */
  lemma AgentFiltersSymmetric(a: AgentView, b: AgentView)
    ensures AgentOnDifferentLayers(a, b) == AgentOnDifferentLayers(b, a)
    ensures AgentIsTeammate(a, b) == AgentIsTeammate(b, a)
    ensures AgentIsColliding(a, b) == AgentIsColliding(b, a)
  {
    SqNeg(a.agent.position.x - b.agent.position.x);
    SqNeg(a.agent.position.y - b.agent.position.y);
  }

  /** An agent never collides with itself, nor with anything sharing its ID. */
  lemma SameIdNeverCollides(a: AgentView, b: AgentView)
    requires a.agent.id == b.agent.id
    ensures !AgentIsColliding(a, b) && !AgentIsCollidingNotSquishable(a, b)
  {
  }

  /** Distinct agents on the same layer with non-negative radii collide
      exactly when their discs share a point. This direction: a shared point
      forces a collision. */
  lemma SharedPointCollides(a: AgentView, b: AgentView, q: Vec)
    requires a.agent.id != b.agent.id && !AgentOnDifferentLayers(a, b)
    requires a.agent.radius >= 0.0 && b.agent.radius >= 0.0
    requires InDisc(a.agent.position, a.agent.radius, q) && InDisc(b.agent.position, b.agent.radius, q)
    ensures AgentIsColliding(a, b)
  {
    DiscsMeet(a.agent.position, a.agent.radius, b.agent.position, b.agent.radius, q);
  }

  /** The converse: colliding agents with non-negative radii share a point. */
  lemma CollidingSharePoint(a: AgentView, b: AgentView)
    requires a.agent.radius >= 0.0 && b.agent.radius >= 0.0
    requires AgentIsColliding(a, b)
    ensures exists q :: InDisc(a.agent.position, a.agent.radius, q) && InDisc(b.agent.position, b.agent.radius, q)
  {
    DiscsTouch(a.agent.position, a.agent.radius, b.agent.position, b.agent.radius);
    var q := Contact(a.agent.position, a.agent.radius, b.agent.position, b.agent.radius);
    assert InDisc(a.agent.position, a.agent.radius, q) && InDisc(b.agent.position, b.agent.radius, q);
  }

  /** Squishing is one-way and never between teammates. */
  lemma SquishableAsymmetric(a: AgentView, b: AgentView)
    ensures AgentIsSquishable(a, b) ==> !AgentIsSquishable(b, a)
    ensures !AgentIsSquishable(a, a)
    ensures AgentIsTeammate(a, b) ==> !AgentIsSquishable(a, b)
  {
  }

  /** A larger opponent on the same layer always squishes; then an
      overlap with it does not count as blocking. */
  lemma LargerOpponentSquishes(a: AgentView, b: AgentView)
    requires !AgentIsTeammate(a, b) && !AgentOnDifferentLayers(a, b) && a.size < b.size
    ensures AgentIsSquishable(a, b) && !AgentIsCollidingNotSquishable(a, b)
  {
  }

  /** The box test does not remove every false report of the circle test:
      a disc just beyond a corner overlaps the feature's box and meets the
      line through an edge, yet misses the rectangle. */
  lemma FeatureFalsePositive()
    ensures var a := AgentView(Agent.A(1, Vec(10.8, 10.8), Zero, Zero, Polar(1.0, 0.0), 1.0, 0.0, 0.0, 0.0, 0), 0, 0);
            var f := Feature.F(2, H.Square, 0, 0);
            AgentIsCollidingWithFeature(a, f) && !DiscMeetsRect(H.Square, a.agent.position, a.agent.radius)
  {
    DiscMeetsRectIff(H.Square, Vec(10.8, 10.8), 1.0);
    assert H.IntersectCircle(H.Square, Vec(10.8, 10.8), 1.0) by {
      assert LineMeetsCircle(H.Square.max, Vec(0.0, -1.0), Vec(10.8, 10.8), 1.0);
    }
  }

  /** Features never collide with an agent on the other layer. */
  lemma FeatureOtherLayerNeverCollides(a: AgentView, f: Feature.F)
    requires Airborne(a.agent.flags) != Airborne(f.flags)
    ensures !AgentIsCollidingWithFeature(a, f)
  {
  }

  function TestAgent(x: Id, flags: bv64): AgentView {
    AgentView(Agent.A(x, Vec(1.0, 1.0), Zero, Zero, Polar(1.0, 0.0), 1.0, 0.0, 0.0, 0.0, flags), 0, 0)
  }

  /** The three collision scenarios of the filter tests. */
  lemma AgentIsCollidingExamples()
    ensures !AgentIsColliding(TestAgent(1, 0), TestAgent(1, 0))
    ensures !AgentIsColliding(TestAgent(1, Flags.FTerrainAir | Flags.FTerrainAccessibleAir),
                              TestAgent(2, Flags.FTerrainLand | Flags.FTerrainAccessibleLand))
    ensures AgentIsColliding(TestAgent(1, Flags.FTerrainAir | Flags.FTerrainAccessibleAir),
                             TestAgent(2, Flags.FTerrainAir | Flags.FTerrainAccessibleAir))
  {
    assert Sq(2.0) == 4.0;
  }
}
