/** The spatial index the stores consume, abstracted as a map from identity
    to rectangle, together with the two-phase query (broad phase, then
    filter) and the map/index mirroring discipline shared by both stores. */
module SpatialIndex {
  import opened Geometry
  import opened Ids
  import opened Wrappers

  datatype Index = Index(boxes: map<Id, Rect>)

  const Empty: Index := Index(map[])

  /** Registers a rectangle under a fresh identity; an identity already
      present is refused. */
  function Insert(ix: Index, x: Id, b: Rect): (r: Result<Index>)
    ensures r.Success? <==> x !in ix.boxes
    ensures r.Failure? ==> r.error == IndexFailure
    ensures r.Success? ==> x in r.value.boxes && r.value.boxes[x] == b
    ensures r.Success? ==> forall y :: y != x ==> Same(ix, r.value, y)
  {
    if x in ix.boxes then Failure(IndexFailure) else Success(Index(ix.boxes[x := b]))
  }

  /** Unregisters an identity; an absent identity is refused. */
  function Remove(ix: Index, x: Id): (r: Result<Index>)
    ensures r.Success? <==> x in ix.boxes
    ensures r.Failure? ==> r.error == IndexFailure
    ensures r.Success? ==> x !in r.value.boxes
    ensures r.Success? ==> forall y :: y != x ==> Same(ix, r.value, y)
  {
    if x !in ix.boxes then Failure(IndexFailure) else Success(Index(ix.boxes - {x}))
  }

  /** The entry of `y` is the same in both indexes (present with the same
      rectangle, or absent from both). */
  predicate Same(ix: Index, iy: Index, y: Id) {
    (y in ix.boxes <==> y in iy.boxes) && (y in ix.boxes ==> ix.boxes[y] == iy.boxes[y])
  }

  /** The entry of `y` is the same in both maps. */
  ghost predicate SameEntry<T>(m: map<Id, T>, n: map<Id, T>, y: Id) {
    (y in m <==> y in n) && (y in m ==> m[y] == n[y])
  }

  /** What the index promises of a broad-phase answer for region `q`: only
      registered identities, and every identity whose rectangle overlaps
      `q`. Identities whose rectangle does not overlap may also appear. */
  ghost predicate IsBroadPhase(ix: Index, q: Rect, cands: seq<Id>) {
    (forall i :: 0 <= i < |cands| ==> cands[i] in ix.boxes)
    && (forall x :: x in ix.boxes && !Disjoint(ix.boxes[x], q) ==> x in cands)
  }

  /** The map and the index hold the same identities; each rectangle is the
      bounding box of the stored entity, and each entity is stored under
      its own identity. */
  ghost predicate Mirrors<T>(m: map<Id, T>, ix: Index, key: T -> Id, box: T -> Rect) {
    m.Keys == ix.boxes.Keys
    && forall x :: x in m ==> key(m[x]) == x && ix.boxes[x] == box(m[x])
  }

  /** The entities behind `cands` that pass `keep`, in candidate order. */
  function Select<T>(m: map<Id, T>, cands: seq<Id>, keep: T -> bool): seq<T>
    requires forall i :: 0 <= i < |cands| ==> cands[i] in m
  {
    if |cands| == 0 then []
    else
      var last := m[cands[|cands| - 1]];
      Select(m, cands[..|cands| - 1], keep) + (if keep(last) then [last] else [])
  }

  /** An entity is selected exactly when it passes the filter and stands
      behind some candidate; the answer is never longer than the candidates. */
  lemma {:induction false} SelectMembers<T>(m: map<Id, T>, cands: seq<Id>, keep: T -> bool, e: T)
    requires forall i :: 0 <= i < |cands| ==> cands[i] in m
    ensures e in Select(m, cands, keep) <==> keep(e) && exists i :: 0 <= i < |cands| && m[cands[i]] == e
    ensures |Select(m, cands, keep)| <= |cands|
  {
    if |cands| > 0 {
      var init := cands[..|cands| - 1];
      SelectMembers(m, init, keep, e);
      if keep(e) && (exists i :: 0 <= i < |cands| && m[cands[i]] == e) {
        var i :| 0 <= i < |cands| && m[cands[i]] == e;
        if i < |cands| - 1 {
          assert init[i] == cands[i];
        }
      }
      if exists i :: 0 <= i < |init| && m[init[i]] == e {
        var i :| 0 <= i < |init| && m[init[i]] == e;
        assert cands[i] == init[i];
      }
    }
  }

  /** With a filter that keeps everything, the answer is the entity behind
      every candidate, one for one and in order. */
  lemma {:induction false} SelectAll<T>(m: map<Id, T>, cands: seq<Id>, keep: T -> bool)
    requires forall i :: 0 <= i < |cands| ==> cands[i] in m
    requires forall i :: 0 <= i < |cands| ==> keep(m[cands[i]])
    ensures |Select(m, cands, keep)| == |cands|
    ensures forall i :: 0 <= i < |cands| ==> Select(m, cands, keep)[i] == m[cands[i]]
  {
    if |cands| > 0 {
      SelectAll(m, cands[..|cands| - 1], keep);
    }
  }

  /** The two-phase query loop: walk the broad-phase candidates in order
      and keep each entity the filter accepts. */
  method Query<T>(m: map<Id, T>, cands: seq<Id>, keep: T -> bool) returns (r: seq<T>)
    requires forall i :: 0 <= i < |cands| ==> cands[i] in m
    ensures r == Select(m, cands, keep)
  {
    r := [];
    var i := 0;
    while i < |cands|
      invariant 0 <= i <= |cands|
      invariant r == Select(m, cands[..i], keep)
    {
      var e := m[cands[i]];
      if keep(e) {
        r := r + [e];
      }
      assert cands[..i + 1][..i] == cands[..i];
      i := i + 1;
    }
    assert cands[..i] == cands;
  }

  /** Soundness and completeness of the two-phase query over a mirrored
      store: every answer passes the filter and stands behind a candidate,
      and every stored entity whose box overlaps the region and that passes
      the filter is answered. */
  lemma QueryExact<T>(m: map<Id, T>, ix: Index, key: T -> Id, box: T -> Rect,
                      q: Rect, cands: seq<Id>, keep: T -> bool)
    requires Mirrors(m, ix, key, box) && IsBroadPhase(ix, q, cands)
    ensures forall i :: 0 <= i < |cands| ==> cands[i] in m
    ensures forall e :: e in Select(m, cands, keep) ==> keep(e) && key(e) in cands && key(e) in m && m[key(e)] == e
    ensures forall x :: x in m && !Disjoint(box(m[x]), q) && keep(m[x]) ==> m[x] in Select(m, cands, keep)
  {
    forall e | e in Select(m, cands, keep)
      ensures keep(e) && key(e) in cands && key(e) in m && m[key(e)] == e
    {
      SelectMembers(m, cands, keep, e);
      var i :| 0 <= i < |cands| && m[cands[i]] == e;
    }
    forall x | x in m && !Disjoint(box(m[x]), q) && keep(m[x])
      ensures m[x] in Select(m, cands, keep)
    {
      var i :| 0 <= i < |cands| && cands[i] == x;
      SelectMembers(m, cands, keep, m[x]);
    }
  }

  /** Adding the same identity to a mirrored map and index, with the
      entity's box, keeps them mirrored. */
  lemma InsertMirrors<T>(m: map<Id, T>, ix: Index, key: T -> Id, box: T -> Rect, e: T)
    requires Mirrors(m, ix, key, box) && key(e) !in m
    ensures Insert(ix, key(e), box(e)).Success?
    ensures Mirrors(m[key(e) := e], Insert(ix, key(e), box(e)).value, key, box)
  {
    var ix' := Insert(ix, key(e), box(e)).value;
    assert m[key(e) := e].Keys == ix'.boxes.Keys by {
      forall y ensures y in m[key(e) := e] <==> y in ix'.boxes {
        assert Same(ix, ix', y) || y == key(e);
      }
    }
    forall y | y in m[key(e) := e]
      ensures key(m[key(e) := e][y]) == y && ix'.boxes[y] == box(m[key(e) := e][y])
    {
      if y != key(e) {
        assert Same(ix, ix', y);
      }
    }
  }

  /** Removing the same identity from a mirrored map and index keeps them mirrored. */
  lemma RemoveMirrors<T>(m: map<Id, T>, ix: Index, key: T -> Id, box: T -> Rect, x: Id)
    requires Mirrors(m, ix, key, box) && x in m
    ensures Remove(ix, x).Success?
    ensures Mirrors(m - {x}, Remove(ix, x).value, key, box)
  {
    var ix' := Remove(ix, x).value;
    assert (m - {x}).Keys == ix'.boxes.Keys by {
      forall y ensures y in m - {x} <==> y in ix'.boxes {
        assert Same(ix, ix', y) || y == x;
      }
    }
    forall y | y in m - {x}
      ensures ix'.boxes[y] == box((m - {x})[y])
    {
      assert Same(ix, ix', y);
    }
  }
}
