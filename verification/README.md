# A verified model of go-database's entity store and collision filters

This project models the core of `go-database`, a store for simulation entities that have a position. There are three kinds of entity:

- mobile agents;
- static terrain features;
- projectiles.

The store answers region queries and decides which pairs of entities may interact. The model is written in Dafny and has four layers:

- **Flag validators** (`Flags`, `Move`, `Size`). A 64-bit classification mask holds size-class bits, terrain-accessibility bits and terrain-occupancy bits. The validator rejects:
  - a mask with two size classes;
  - a mask that occupies a layer it cannot access.

  The move-mode and size enumerations have their own small validators.
- **Entity records** (`Agent`, `Projectile`, `Feature`). These are immutable datatypes.
  - Each getter is a field read.
  - Each setter is a record update.
  - Construction returns a `Result`, and an invalid mask gives `InvalidEntity`. The Go code panics instead.
  - The bounding box of agents and projectiles is centred on the position, with half-width equal to the radius.
  - A feature keeps the rectangle it was given.
- **Collision filters** (`Filters`, plus the rectangle helpers `Hyperrectangle` and its older copy `LegacyHyperrectangle`):
  - layer separation: exactly one of the pair is airborne;
  - team and squish rules;
  - the agent-agent disc overlap test;
  - the agent-feature test, which checks layers, then boxes, then the circle against the rectangle.

  `Geometry` holds the plane primitives these tests rest on.
- **Entity stores** (`Database`, `Cache`, over `SpatialIndex`). The spatial index is abstracted as a map from identity to rectangle. A broad-phase answer is any candidate list that:
  - lists only registered identities;
  - includes every identity whose rectangle overlaps the query region.

  Each query walks the candidates in order and keeps those the caller's filter accepts.
  - The counter-based store `Database` hands out identities from a 64-bit counter.
  - The snapshot store `Cache` loads entities that already carry their identities.

Go's panics are modelled as the `Failure` arm of `Result`. `AgentInsert` also returns the changed store alongside a failure, because the counter has already advanced when validation fails and later identities depend on it. The two deletes return only the failure (see "## Left out").

## Model

| member | source | states |
|---|---|---|
| Ids.Next | database/database.go:50-51 | The counter goes up by one, and wraps to 0 past the largest 64-bit value. |
| Flags.Validate | flags/flags.go:40-69 | A mask is accepted exactly when it names at most one size class and every occupied layer is accessible. |
| Flags.NamedFlagsAreDistinctBits | flags/flags.go:5-28 | `FNone` is 0. The ten named flags are the powers of two 2^1 to 2^10, in declaration order, and no two of them share a bit. |
| Flags.TwoSizesInvalid | flags/flags.go:41-56 | Any mask holding two distinct size classes is rejected. |
| Flags.OccupancyWithoutAccessInvalid | flags/flags.go:58-66 | A mask that occupies air, land or sea without the matching accessibility bit is rejected. |
| Flags.GrantKeepsValid | flags/flags.go:58-66 | Adding an accessibility bit never turns a valid mask invalid. |
| Flags.LeaveKeepsValid | flags/flags.go:58-66 | Clearing an occupancy bit never turns a valid mask invalid. |
| Flags.SeveralLayersAccepted | flags/flags.go:58-68 | Any valid mask stays valid when it is made to occupy two layers, or all three, together with access to them. |
| Flags.ValidateExamples | flags/flags_test.go:16-44 | The table-test cases: each single size class is valid, two or four sizes are invalid, `AccessibleAir\|Air` is valid, and `Air` alone is invalid. |
| Move.Validate | flags/move/move.go:21-26 | A move mask is rejected exactly when it has both seek and arrival. |
| Move.OtherBitsIrrelevant | flags/move/move.go:17-26 | Setting or clearing any bit other than seek and arrival never changes validity. |
| Move.FlockingIsUnion | flags/move/move.go:6-18 | `FFlocking` is exactly alignment, coherence and separation, and it is disjoint from avoidance, seek and arrival. |
| Move.ValidateExamples | flags/move/move.go:21-26 | `FNone`, seek alone, arrival alone, and seek with flocking and avoidance are valid; seek with arrival is invalid. |
| Size.Validate | flags/size/size.go:13 | Every value except `FNone` is accepted, including values beyond `FLarge`. |
| Size.SizesOrdered | flags/size/size.go:5-13 | `FNone < FSmall < FMedium < FLarge`. Only `FNone` is invalid, and `FLarge + 1` is accepted. |
| Agent.New | internal/agent/agent.go:53-77 | Construction succeeds exactly when the mask is valid; otherwise it fails with `InvalidEntity`. On success every getter returns its option, the identity included. |
| Agent.NewFromOptions | internal/agent/agent.go:53-108 | An agent with a valid mask is rebuilt exactly from what its getters report. |
| Agent.SetID | internal/agent/agent.go:110 | Sets the identity and changes no other field. |
| Agent.SetPosition | internal/agent/agent.go:111 | Sets the position and changes no other field. |
| Agent.SetVelocity | internal/agent/agent.go:112 | Sets the velocity and changes no other field. |
| Agent.SetTargetVelocity | internal/agent/agent.go:113 | Sets the target velocity and changes no other field. |
| Agent.SetHeading | internal/agent/agent.go:114 | Sets the heading and changes no other field. |
| Agent.SetFlags | internal/agent/agent.go:115 | Sets the mask and changes no other field. |
| Agent.SetFlagsSkipsValidation | internal/agent/agent.go:115 | A valid agent can be given an invalid mask afterwards. |
| Agent.AABB | internal/agent/agent.go:117-131 | The box is centred on the current position with half-width the radius, so it encloses the agent's disc. |
| Agent.AABBTracksPosition | internal/agent/agent.go:110-131 | `SetPosition` translates the box by the displacement. The other setters leave the box unchanged. |
| Projectile.Validate | internal/projectile/projectile.go:119-124 | A projectile mask is accepted exactly when its only size class is the projectile class and every occupied layer is accessible. |
| Projectile.ValidateCases | internal/projectile/projectile.go:119-124 | Without the projectile bit a mask is rejected. With it, the result equals the common validator's. |
| Projectile.New | internal/projectile/projectile.go:36-58 | Construction succeeds exactly when the mask is valid. On success it copies every option and leaves the identity at 0. |
| Projectile.NewFromOptions | internal/projectile/projectile.go:36-92 | A projectile with a valid mask is rebuilt from its getters, apart from its identity, which becomes 0. |
| Projectile.SetID | internal/projectile/projectile.go:94 | Sets the identity and changes no other field. |
| Projectile.SetPosition | internal/projectile/projectile.go:95 | Sets the position and changes no other field. |
| Projectile.SetTargetPosition | internal/projectile/projectile.go:96 | Sets the target position and changes no other field. |
| Projectile.SetVelocity | internal/projectile/projectile.go:97 | Sets the velocity and changes no other field. |
| Projectile.SetTargetVelocity | internal/projectile/projectile.go:98 | Sets the target velocity and changes no other field. |
| Projectile.SetHeading | internal/projectile/projectile.go:99 | Sets the heading and changes no other field. |
| Projectile.SetFlags | internal/projectile/projectile.go:100 | Sets the mask and changes no other field. |
| Projectile.SetFlagsSkipsValidation | internal/projectile/projectile.go:100 | A valid projectile can be given an invalid mask afterwards. |
| Projectile.AABB | internal/projectile/projectile.go:102-117 | The box is centred on the position with half-width the radius, and it encloses the projectile's disc. |
| Feature.Validate | internal/feature/feature.go:59-64 | A feature mask is accepted exactly when it names no size class and every occupied layer is accessible. |
| Feature.ValidateCases | internal/feature/feature.go:59-64 | Any size bit makes a mask invalid. Without one, the result equals the common validator's. |
| Feature.New | internal/feature/feature.go:29-54 | Construction succeeds exactly when the mask is valid. On success the box is the given `Min`/`Max` and the identity is 0. |
| Feature.NewFromOptions | internal/feature/feature.go:29-54 | A feature with a valid mask is rebuilt from its getters, apart from its identity, which becomes 0. |
| Feature.AABB | internal/feature/feature.go:50-54 | Reports the feature's stored rectangle. Its partner `Feature.AABBFixedAtConstruction` ties it to the construction options. |
| Feature.AABBFixedAtConstruction | internal/feature/feature.go:29-57 | The box of a newly built feature is the given `Min`/`Max`, and setting the identity or the mask leaves it unchanged. |
| Feature.SetID | internal/feature/feature.go:56 | Sets the identity and changes no other field. |
| Feature.SetFlags | internal/feature/feature.go:57 | Sets the mask and changes no other field. |
| Filters.AgentOnDifferentLayers | filters/filters.go:13-18 | Two agents are on different layers exactly when one of them is airborne and the other is not. |
| Filters.AgentIsSquishable | filters/filters.go:21-29 | A squish happens only between opponents on the same layer, and only when `b`'s size class is strictly larger than `a`'s. |
| Filters.AgentIsTeammate | filters/filters.go:31 | Two agents are teammates when their team tags are equal. The relation is symmetric (`Filters.AgentFiltersSymmetric`), and teammates never squish each other (`Filters.SquishableAsymmetric`). |
| Filters.AgentIsColliding | filters/filters.go:34-49 | A collision happens only between distinct identities on the same layer. |
| Filters.AgentIsCollidingNotSquishable | filters/filters.go:51-53 | A hit is a collision in which `a` cannot be squished. It is exactly a collision between teammates, or between opponents when `a`'s size class is not smaller than `b`'s. |
| Filters.FeatureOnDifferentLayers | filters/filters.go:55-64 | An agent and a feature are on different layers exactly when one of them is airborne and the other is not. |
| Filters.AgentIsCollidingWithFeature | filters/filters.go:66-76 | A hit means the agent and the feature share a layer and their boxes overlap. On a well-formed rectangle, a hit also puts the agent's centre within its radius of the rectangle's vertical or horizontal band. Conversely, an agent with non-negative radius on the feature's layer whose disc really touches the well-formed rectangle is always reported. |
| Filters.AgentFiltersSymmetric | filters/filters.go:13-49 | The layer, team and collision relations between agents do not depend on argument order. |
| Filters.SameIdNeverCollides | filters/filters.go:35-37 | Agents sharing an identity never collide, and never collide without squishing. |
| Filters.SharedPointCollides | filters/filters.go:43-48 | Distinct agents on one layer whose discs share a point collide. |
| Filters.CollidingSharePoint | filters/filters.go:43-48 | Colliding agents with non-negative radii have discs that share a point. |
| Filters.SquishableAsymmetric | filters/filters.go:21-31 | Squishing is never mutual, never reflexive and never between teammates. |
| Filters.LargerOpponentSquishes | filters/filters.go:21-53 | A strictly larger opponent on the same layer squishes, and an overlap with it does not count as a blocking collision. |
| Filters.FeatureFalsePositive | filters/filters.go:66-76 | An agent of radius 1 at (10.8,10.8) on the layer of a feature over [0,10]² is reported as colliding, although its disc misses the rectangle. |
| Filters.FeatureOtherLayerNeverCollides | filters/filters.go:55-69 | An agent and a feature on different layers never collide. |
| Filters.AgentIsCollidingExamples | filters/filters_test.go:21-78 | The table-test cases: same identity gives no collision, air against land gives none, and two airborne agents collide. |
| Geometry.DiscsMeet | filters/filters.go:43-48 | Two discs sharing a point have centres at most the sum of the radii apart. |
| Geometry.DiscsTouch | filters/filters.go:43-48 | Centres at most the sum of the radii apart imply a point common to both discs. |
| Hyperrectangle.Normal | geometry/hyperrectangle/hyperrectangle.go:31-96 | Fails, with `InvalidDomain`, exactly when the side mask is none of the four sides or four corners. On success the reported squared distance is non-negative. |
| Hyperrectangle.NormalFailsIffInside | geometry/hyperrectangle/hyperrectangle.go:39-91 | On a rectangle of positive extent, `Normal` fails exactly on points strictly inside it. Points on an edge or corner are classified. |
| Hyperrectangle.NormalDistanceIsNearest | geometry/hyperrectangle/hyperrectangle.go:36-56 | The squared distance returned is the squared distance to the rectangle's nearest point. |
| Hyperrectangle.NormalPointsOutward | geometry/hyperrectangle/hyperrectangle.go:61-94 | The direction is never zero. Its dot product with the offset from any point of the rectangle to the query point is non-negative. |
| Hyperrectangle.NormalNorthEastQuadrant | geometry/hyperrectangle/hyperrectangle.go:70-74 | Beyond the north-east corner, both components of the direction are non-negative. |
| Hyperrectangle.NormalEdgeExamples | geometry/hyperrectangle/hyperrectangle_test.go:25-48 | North, south, east and west of [0,10]² give the axis normals at squared distance 100, and the centre fails. |
| Hyperrectangle.NormalCornerExamples | geometry/hyperrectangle/hyperrectangle_test.go:50-68 | (20,20) gives squared distance 200 and direction (10,10). (20,10) gives squared distance 100 and direction (10,0). |
| Hyperrectangle.NormalOnCornerIsDiagonal | geometry/hyperrectangle/hyperrectangle_test.go:70-93 | Each corner of a rectangle of positive extent gives distance 0 and the corner's diagonal as direction. |
| Hyperrectangle.IntersectCircle | geometry/hyperrectangle/hyperrectangle.go:107-146 | A centre inside the rectangle is a hit. On a well-formed rectangle a hit puts the centre within the radius of the vertical band over the x-range or of the horizontal band over the y-range. |
| Hyperrectangle.IntersectCircleNoFalseNegatives | geometry/hyperrectangle/hyperrectangle.go:107-146 | Every disc that really meets a well-formed rectangle is reported. |
| Hyperrectangle.IntersectCircleOverApproximates | geometry/hyperrectangle/hyperrectangle.go:132-143 | A disc of radius 3 at (12,100) is reported against [0,10]² although it misses it, because the edge tests use whole lines. |
| Hyperrectangle.IntersectCircleExamples | geometry/hyperrectangle/hyperrectangle_test.go:114-143 | The table-test cases: centre, near corner and near edge hit; (12,12) with radius 1 misses. |
| LegacyHyperrectangle.Normal | internal/geometry/hyperrectangle/hyperrectangle.go:33-91 | Succeeds, fails and points exactly as the newer `Normal`, without the distance. |
| LegacyHyperrectangle.CollideCircle | internal/geometry/hyperrectangle/hyperrectangle.go:102-141 | Gives the same answer as the newer `IntersectCircle` on every input. |
| LegacyHyperrectangle.CollideCircleNoFalseNegatives | internal/geometry/hyperrectangle/hyperrectangle.go:102-141 | Every disc that really meets a well-formed rectangle is reported. |
| SpatialIndex.Insert | database/database.go:57-59 | Registration succeeds exactly for an absent identity, and it leaves every other entry unchanged. |
| SpatialIndex.Remove | database/database.go:71-73 | Removal succeeds exactly for a present identity, and it leaves every other entry unchanged. |
| SpatialIndex.SelectMembers | database/database.go:81-88 | An entity is in the answer exactly when it passes the filter and is behind some candidate. The answer is no longer than the candidate list. |
| SpatialIndex.SelectAll | database/database.go:81-88 | With a filter that accepts everything, the answer is the entity behind each candidate, in order. |
| SpatialIndex.Query | database/database.go:78-89 | The loop computes the in-order selection of filter-passing candidates. |
| SpatialIndex.QueryExact | database/database.go:78-89 | Over a mirrored map and index, every answer passes the filter and is a candidate. Every stored entity whose box overlaps the region and that passes the filter is answered. |
| SpatialIndex.InsertMirrors | database/database.go:56-59 | Adding an entity to the map and its box to the index keeps the two mirrored. |
| SpatialIndex.RemoveMirrors | database/database.go:70-73 | Removing an identity from both keeps them mirrored. |
| Database.New | database/database.go:28-36 | A new store is empty, valid, and has its counter at 0. |
| Database.AgentGetOrDie | database/database.go:40-46 | Returns the stored agent, or fails with `NotFound` when the identity is absent. |
| Database.AgentInsert | database/database.go:49-62 | The counter always advances by one. An invalid mask fails without touching the map or index. On success the agent gets the old counter value as identity and is added to the map and, with its box, to the index; nothing else changes. When the index refuses that identity, the result is `IndexFailure`, the index is unchanged, and the map keeps the new agent under the old counter value with every other entry unchanged. |
| Database.AgentDelete | database/database.go:65-74 | Fails with `NotFound` on an absent identity. Otherwise it removes that identity from the map and the index and leaves every other entry and the counter unchanged. |
| Database.AgentQuery | database/database.go:78-89 | Answers only filter-passing candidates that are stored under their identity. It answers every stored agent whose box overlaps the region and that passes the filter. The answer is exactly the filter-passing agents behind the candidates, one per passing candidate, in candidate order. |
| Database.InsertPreservesValid | database/database.go:49-62 | On a valid store whose counter has room, an insert succeeds exactly when the mask is valid, uses an identity not in use, and keeps the store valid. |
| Database.DeletePreservesValid | database/database.go:65-74 | On a valid store, a delete succeeds exactly when the identity is stored, and keeps the store valid. |
| Database.IdsNeverReused | database/database.go:50-70 | After an agent is deleted, the next insert does not get its identity back. |
| Database.RefusedInsertConsumesId | database/database.go:50-56 | A refused insert still uses up an identity. The next successful insert gets the following one. |
| Database.FirstIds | database/database.go:28-62 | From an empty store, two successful inserts get identities 0 and 1. |
| Cache.KeyedKeys | database/cache/cache.go:45-57 | The loaded map holds exactly the identities of the entities given. |
| Cache.KeyedLastWins | database/cache/cache.go:45-57 | The entity stored under an identity is the last one given with it. |
| Cache.IndexedKeys | database/cache/cache.go:45-53 | The loaded index holds exactly the identities of the entities given. |
| Cache.IndexedFirstWins | database/cache/cache.go:45-53 | The box registered under an identity is the first entity's, because later registrations fail and the error is ignored. |
| Cache.New | database/cache/cache.go:35-60 | Each map holds exactly the identities of its class's input. Each index has the same keys as its map. |
| Cache.NewMirrors | database/cache/cache.go:35-60 | With distinct identities in each class, every input entity is stored under its own identity. Agents and features are indexed with their boxes. Projectiles go into their map only. |
| Cache.NewDuplicateDiverges | database/cache/cache.go:46-47 | Two agents with one identity leave the second in the map and the first's box in the index, so the store is no longer valid. |
| Cache.GetAgentOrDie | database/cache/cache.go:64-70 | Returns the stored agent, or fails with `NotFound`. |
| Cache.GetFeatureOrDie | database/cache/cache.go:74-80 | Returns the stored feature, or fails with `NotFound`. |
| Cache.GetProjectileOrDie | database/cache/cache.go:84-90 | Returns the stored projectile, or fails with `NotFound`. |
| Cache.DeleteAgent | database/cache/cache.go:142-151 | Fails with `NotFound` on an absent identity. Otherwise it removes the agent from its map and index, and leaves other agents, features and projectiles untouched. |
| Cache.DeletePreservesValid | database/cache/cache.go:142-151 | On a valid store, a delete succeeds exactly when the agent is stored, keeps the store valid, and the identity is unknown afterwards. |
| Cache.QueryAgents | database/cache/cache.go:155-166 | Answers only filter-passing candidate agents. It answers every stored agent whose box overlaps the region and that passes the filter. The answer is exactly the filter-passing agents behind the candidates, in candidate order. |
| Cache.QueryFeatures | database/cache/cache.go:170-181 | Answers only filter-passing candidate features. It answers every stored feature whose box overlaps the region and that passes the filter. The answer is exactly the filter-passing features behind the candidates, in candidate order. |

### Where the source comments and the code differ

The model follows the code in each case below.

- **The circle test is not exact.** The comment on `IntersectCircle` (geometry/hyperrectangle/hyperrectangle.go:98-106) presents it as a decomposition into exact checks. The edge checks, however, test the *infinite lines* through the edges. The test therefore never misses a real contact (`IntersectCircleNoFalseNegatives`), but it also reports discs that touch only an edge's extension (`IntersectCircleOverApproximates`). What a hit does guarantee is that the centre lies within the radius of the rectangle's vertical or horizontal band (`Hyperrectangle.IntersectCircle`). In the filter, the preceding box-overlap check removes some of these cases but not all: a disc just beyond a corner still passes both tests (`Filters.FeatureFalsePositive`).
- **Several occupied layers are accepted.** The comment on `FTerrainAir` (flags/flags.go:20-24) says only one layer can be occupied at a time. The validator accepts two or all three occupied layers, as long as each one is accessible (`Flags.SeveralLayersAccepted`).

## Left out

- The `List*` methods of the cache (database/cache/cache.go:92-139): they stream the map values through a goroutine and a channel. Iteration order and concurrency have no counterpart in the model, and the store's maps are themselves the snapshot.
- Concurrency: the read/write discipline in the doc comments is a calling convention, and it is not modelled.
- The spatial index's internals (the bounding-volume hierarchy and the brute-force container): they are abstracted as a map plus the broad-phase contract. This model assumes that `Insert` refuses an identity already present and that `Remove` refuses an absent one, as their error results indicate.
- The tree options of `database.New` (leaf size and tolerance): they only tune the index.
- Hyperrectangle.Normal: it reports the squared distance rather than its square root, and the direction before scaling to unit length. Square roots and normalisation are floating-point operations outside the model. `NormalDistanceIsNearest` and `NormalPointsOutward` state the properties the scaled values keep.
- Hyperrectangle.Normal: the corner fallback fires when the offset from the corner is exactly zero. The source compares the magnitude with zero up to a small epsilon.
- Geometry primitives from the external geometry library, whose source is not part of this model. Assumed:
  - rectangle membership is inclusive;
  - rectangles are disjoint only when strictly separated;
  - disc membership is inclusive;
  - a line meets a circle when its distance from the centre is at most the radius.
- Coordinates are exact reals, so floating-point rounding is not modelled.
- Filters.AgentView: the filters read the team and size class of an agent, but the agent record in this version carries neither. A filter therefore takes the agent together with those two values.
- Database.InsertPreservesValid: assumes the 64-bit counter has not yet wrapped. After 2^64 inserts `Next` wraps to 0 (`Ids.Next`), and an insert can then fail on an identity that is still present.
- Database.AgentDelete: when the index refuses the removal, the source has already deleted the map entry before it panics. The model returns only the failure, and on a valid store this case cannot happen (`Database.DeletePreservesValid`).
- Cache.DeleteAgent: the same. The map entry is deleted before the index refusal panics, the model returns only the failure, and on a valid store this case cannot happen (`Cache.DeletePreservesValid`).
- Cache.NewMirrors: requires distinct identities within each class. `NewDuplicateDiverges` shows what happens otherwise.
- The mock constructors and the public interface files (`agent/agent.go`, `feature/feature.go`): they only re-export the internal records. The team package is modelled as an 8-bit tag (`Ids.Team`).
- Class-specific checks on radius or mass, and store-level position updates that would re-mirror the index: neither exists in this version of the code.
