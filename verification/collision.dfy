/** Character collision (Npc.js): the hitbox overlap test with its touch-point
    flags, the per-frame pass over the registry, and the `collisionEvents` list. */
module Collision {
  import opened Optional
  import opened Geometry
  import opened Registry
  import Seqs

  /** Which edges of one side reach into the other. */
  datatype Touch = Touch(id: string, top: bool, bottom: bool, left: bool, right: bool)

  /** `collisionData`: the hit flag and the touch points of both sides. */
  datatype CollisionData = CollisionData(hit: bool, own: Touch, other: Touch)

  /** Touch points of box `a` against box `b`. */
  function TouchOf(id: string, a: Box, b: Box): Touch {
    Touch(id,
      a.bottom > b.top && a.top < b.top,
      a.top < b.bottom && a.bottom > b.bottom,
      a.right > b.left && a.left < b.left,
      a.left < b.right && a.right > b.right)
  }

  /** `isCollision(other)`: both bounding rectangles shrunk by their own hitbox,
      a strict overlap test, and the touch points of each side. */
  function IsCollision(me: GameObj, other: GameObj): (c: CollisionData)
    ensures c.hit <==> Overlap(Shrink(me.rect, me.hitbox), Shrink(other.rect, other.hitbox))
    ensures c.own.id == me.id && c.other.id == other.id
  {
    var a := Shrink(me.rect, me.hitbox);
    var b := Shrink(other.rect, other.hitbox);
    CollisionData(Overlap(a, b), TouchOf(me.id, a, b), TouchOf(other.id, b, a))
  }

  /** Swapping the two objects gives the same hit and swaps the touch points. */
  lemma IsCollisionSwap(a: GameObj, b: GameObj)
    ensures IsCollision(b, a).hit == IsCollision(a, b).hit
    ensures IsCollision(b, a).own == IsCollision(a, b).other
    ensures IsCollision(b, a).other == IsCollision(a, b).own
  {
    OverlapSymmetric(Shrink(a.rect, a.hitbox), Shrink(b.rect, b.hitbox));
  }

  /** The two sides never both claim the same edge. */
  lemma TouchPointsExclusive(a: GameObj, b: GameObj)
    ensures var c := IsCollision(a, b);
            !(c.own.left && c.other.left) && !(c.own.right && c.other.right)
            && !(c.own.top && c.other.top) && !(c.own.bottom && c.other.bottom)
  {
  }

  /** Without hitbox percentages the test is a plain strict rectangle overlap. */
  lemma IsCollisionWithoutHitbox(a: GameObj, b: GameObj)
    requires a.hitbox == NoHitbox && b.hitbox == NoHitbox
    ensures IsCollision(a, b).hit <==>
              a.rect.left < b.rect.Right() && a.rect.Right() > b.rect.left
              && a.rect.top < b.rect.Bottom() && a.rect.Bottom() > b.rect.top
  {
    ShrinkWithoutHitbox(a.rect);
    ShrinkWithoutHitbox(b.rect);
  }

  /** Without hitbox percentages the whole result, touch points included, is
      computed on the plain rectangles. */
  lemma IsCollisionOnEdges(a: GameObj, b: GameObj)
    requires a.hitbox == NoHitbox && b.hitbox == NoHitbox
    ensures var ea := Edges(a.rect);
            var eb := Edges(b.rect);
            IsCollision(a, b) == CollisionData(Overlap(ea, eb), TouchOf(a.id, ea, eb), TouchOf(b.id, eb, ea))
  {
    ShrinkWithoutHitbox(a.rect);
    ShrinkWithoutHitbox(b.rect);
  }

  /** The bottom edge is never shrunk: a hit needs this object's full, unshrunk
      bottom edge to pass below the other object's shrunk top edge. */
  lemma BottomEdgeNotReduced(a: GameObj, b: GameObj)
    ensures Shrink(a.rect, a.hitbox).bottom == a.rect.Bottom()
    ensures IsCollision(a, b).hit ==> a.rect.Bottom() > Shrink(b.rect, b.hitbox).top
  {
  }

  /** Objects the pass looks at: those with a canvas, other than the object itself. */
  predicate Eligible(me: GameObj, o: GameObj) {
    o.hasCanvas && o.uid != me.uid
  }

  predicate HitBy(me: GameObj, o: GameObj) {
    Eligible(me, o) && IsCollision(me, o).hit
  }

  /** Ids of the objects `me` hits, in registry order. */
  function HitIds(me: GameObj, reg: seq<GameObj>): (ids: seq<string>)
    ensures forall id :: id in ids <==> exists k :: 0 <= k < |reg| && HitBy(me, reg[k]) && reg[k].id == id
  {
    if |reg| == 0 then []
    else
      var rest := HitIds(me, reg[1..]);
      assert forall k :: 1 <= k < |reg| ==> reg[k] == reg[1..][k - 1];
      if HitBy(me, reg[0]) then [reg[0].id] + rest else rest
  }

  /** `handleCollisionEvent`'s bookkeeping: append an id not yet listed. */
  function Record(events: seq<string>, id: string): (r: seq<string>)
    ensures id in r
    ensures id in events ==> r == events
    ensures id !in events ==> r == events + [id]
  {
    if id in events then events else events + [id]
  }

  /** Record several ids in order. */
  function RecordAll(events: seq<string>, ids: seq<string>): (r: seq<string>)
    decreases |ids|
  {
    if |ids| == 0 then events else RecordAll(Record(events, ids[0]), ids[1..])
  }

  lemma {:induction false} RecordAllProperties(events: seq<string>, ids: seq<string>)
    ensures var r := RecordAll(events, ids);
            |events| <= |r| && r[..|events|] == events
            && (forall id :: id in r <==> id in events || id in ids)
            && (Seqs.NoDups(events) ==> Seqs.NoDups(r))
    decreases |ids|
  {
    if |ids| > 0 {
      var e := Record(events, ids[0]);
      RecordAllProperties(e, ids[1..]);
      assert ids == [ids[0]] + ids[1..];
      if ids[0] !in events {
        assert e[..|events|] == events;
        var r := RecordAll(e, ids[1..]);
        assert r[..|events|] == r[..|e|][..|events|];
      }
    }
  }

  /** The whole per-frame pass: every hit id is recorded, but when nothing is
      hit at all the list is reset to empty. */
  function Checks(me: GameObj, reg: seq<GameObj>): seq<string> {
    var ids := HitIds(me, reg);
    if |ids| == 0 then [] else RecordAll(me.collisionEvents, ids)
  }

  /** `collisionEvents` never holds an id twice; a pass with no hit empties it;
      otherwise it only grows, by exactly the ids of the objects hit. */
  lemma ChecksProperties(me: GameObj, reg: seq<GameObj>)
    ensures var r := Checks(me, reg);
            (Seqs.NoDups(me.collisionEvents) ==> Seqs.NoDups(r))
            && ((forall k :: 0 <= k < |reg| ==> !HitBy(me, reg[k])) ==> r == [])
            && ((exists k :: 0 <= k < |reg| && HitBy(me, reg[k])) ==>
                  |me.collisionEvents| <= |r| && r[..|me.collisionEvents|] == me.collisionEvents
                  && forall id :: id in r <==> (id in me.collisionEvents
                                   || exists k :: 0 <= k < |reg| && HitBy(me, reg[k]) && reg[k].id == id))
  {
    var ids := HitIds(me, reg);
    RecordAllProperties(me.collisionEvents, ids);
    if exists k :: 0 <= k < |reg| && HitBy(me, reg[k]) {
      var k :| 0 <= k < |reg| && HitBy(me, reg[k]);
      assert reg[k].id in ids;
    }
  }

  /** `collisionChecks()`: one pass over the registry, recording the id of every
      object hit and clearing the list when there was none. */
  method CollisionChecks(me: GameObj, reg: seq<GameObj>) returns (events: seq<string>)
    ensures events == Checks(me, reg)
  {
    events := me.collisionEvents;
    var detected := false;
    var i := 0;
    while i < |reg|
      invariant 0 <= i <= |reg|
      invariant detected <==> |HitIds(me, reg[..i])| > 0
      invariant events == RecordAll(me.collisionEvents, HitIds(me, reg[..i]))
    {
      var o := reg[i];
      HitIdsSnoc(me, reg[..i], o);
      assert reg[..i + 1] == reg[..i] + [o];
      if Eligible(me, o) {
        var c := IsCollision(me, o);
        if c.hit {
          detected := true;
          RecordAllSnoc(me.collisionEvents, HitIds(me, reg[..i]), o.id);
          events := Record(events, c.other.id);
        } else {
          assert HitIds(me, reg[..i]) + [] == HitIds(me, reg[..i]);
        }
      } else {
        assert HitIds(me, reg[..i]) + [] == HitIds(me, reg[..i]);
      }
      i := i + 1;
    }
    assert reg[..|reg|] == reg;
    if !detected {
      events := [];
    }
  }

  lemma {:induction false} HitIdsSnoc(me: GameObj, reg: seq<GameObj>, o: GameObj)
    ensures HitIds(me, reg + [o]) == HitIds(me, reg) + (if HitBy(me, o) then [o.id] else [])
    decreases |reg|
  {
    if |reg| == 0 {
      assert HitIds(me, [o][1..]) == [];
    } else {
      assert (reg + [o])[1..] == reg[1..] + [o];
      HitIdsSnoc(me, reg[1..], o);
    }
  }

  lemma {:induction false} RecordAllSnoc(events: seq<string>, ids: seq<string>, id: string)
    ensures RecordAll(events, ids + [id]) == Record(RecordAll(events, ids), id)
    decreases |ids|
  {
    if |ids| == 0 {
      assert RecordAll(Record(events, id), []) == Record(events, id);
    } else {
      assert (ids + [id])[1..] == ids[1..] + [id];
      RecordAllSnoc(Record(events, ids[0]), ids[1..], id);
    }
  }

  /** Result of `handleCollisionEvent`: the new list, and whether the object
      announces itself to a player (the status or hint pop-up). */
  datatype Handled = Handled(events: seq<string>, notifyPlayer: bool)

  /** `handleCollisionEvent()`: a new id is appended; when that id belongs to a
      registered player, the object announces itself. A known id changes nothing. */
  function HandleCollisionEvent(events: seq<string>, reg: seq<GameObj>, objectId: string): (h: Handled)
    ensures h.events == Record(events, objectId)
    ensures h.notifyPlayer <==> objectId !in events && IsPlayerId(objectId)
                                && exists k :: 0 <= k < |reg| && reg[k].hasCanvas && reg[k].id == objectId
    ensures Seqs.NoDups(events) ==> Seqs.NoDups(h.events)
  {
    if objectId !in events then
      var found := FindById(reg, objectId);
      Handled(events + [objectId], found.Some? && IsPlayerId(found.value.id))
    else
      Handled(events, false)
  }
}
