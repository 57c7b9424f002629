/** The live-object registry `GameEnv.gameObjects`: an ordered list of game
    objects. JavaScript compares objects by reference; here each object carries
    a `uid` standing for that reference, while `id` is its canvas id. */
module Registry {
  import opened Optional
  import opened Geometry
  import Seqs

  /** Per-kind state the other objects read through the registry. */
  datatype Kind =
    | Player
    | Npc(keysReceived: int)
    | KeySlot(isFilled: bool, collidedPlayer: Option<nat>)
    | Item
    | Scenery

  /** One registry entry. `rect` is the on-screen bounding rectangle that the
      character collision test reads; `position`, `width` and `height` are the
      object's own fields that the key slot's collision test reads (a missing
      width or height is 0). */
  datatype GameObj = GameObj(
    uid: nat,
    id: string,
    hasCanvas: bool,
    rect: Rect,
    hitbox: Hitbox,
    position: Option<Point>,
    width: real,
    height: real,
    greeting: Option<string>,
    collisionEvents: seq<string>,
    kind: Kind)

  /** Canvas ids the game treats as a player. */
  predicate IsPlayerId(id: string) {
    id == "player" || id == "player2"
  }

  /** No object is in the registry twice. */
  predicate UniqueUids(reg: seq<GameObj>) {
    forall i, j :: 0 <= i < j < |reg| ==> reg[i].uid != reg[j].uid
  }

  /** The uids in registry order. */
  function Uids(reg: seq<GameObj>): (u: seq<nat>)
    ensures |u| == |reg| && forall i :: 0 <= i < |reg| ==> u[i] == reg[i].uid
  {
    seq(|reg|, i requires 0 <= i < |reg| => reg[i].uid)
  }

  /** `gameObjects.indexOf(obj)`: position of the first entry with this uid, or -1. */
  function IndexOf(reg: seq<GameObj>, uid: nat): (i: int)
    ensures -1 <= i < |reg|
    ensures i == -1 <==> forall k :: 0 <= k < |reg| ==> reg[k].uid != uid
    ensures 0 <= i ==> reg[i].uid == uid && forall k :: 0 <= k < i ==> reg[k].uid != uid
  {
    var u := Uids(reg);
    var i := Seqs.IndexOf(u, uid);
    assert i == -1 ==> forall k :: 0 <= k < |reg| ==> reg[k].uid != uid by {
      if i == -1 {
        forall k | 0 <= k < |reg| ensures reg[k].uid != uid {
          assert u[k] == reg[k].uid;
        }
      }
    }
    assert 0 <= i ==> forall k :: 0 <= k < i ==> reg[k].uid != uid by {
      if 0 <= i {
        forall k | 0 <= k < i ensures reg[k].uid != uid {
          assert u[..i][k] == reg[k].uid;
        }
      }
    }
    i
  }

  /** The entry with this uid, if any. */
  function Find(reg: seq<GameObj>, uid: nat): (o: Option<GameObj>)
    ensures o.None? <==> forall k :: 0 <= k < |reg| ==> reg[k].uid != uid
    ensures o.Some? ==> o.value in reg && o.value.uid == uid
  {
    var i := IndexOf(reg, uid);
    if i < 0 then None else Some(reg[i])
  }

  /** Write an object's new state back into its registry entry (the first
      entry with its uid); an object outside the registry changes nothing. */
  function Put(reg: seq<GameObj>, o: GameObj): (r: seq<GameObj>)
    ensures |r| == |reg|
    ensures var i := IndexOf(reg, o.uid);
            forall k :: 0 <= k < |reg| ==> r[k] == (if k == i then o else reg[k])
  {
    var i := IndexOf(reg, o.uid);
    if i < 0 then reg else reg[i := o]
  }

  /** `destroy()`: remove the object's entry when it is in the registry;
      otherwise nothing happens. */
  function Destroy(reg: seq<GameObj>, uid: nat): (r: seq<GameObj>)
    ensures IndexOf(reg, uid) == -1 ==> r == reg
    ensures IndexOf(reg, uid) >= 0 ==> |r| == |reg| - 1
    ensures IndexOf(reg, uid) >= 0 ==> var i := IndexOf(reg, uid); r == reg[..i] + reg[i + 1..]
  {
    var i := IndexOf(reg, uid);
    if i < 0 then reg else Seqs.RemoveAt(reg, i)
  }

  /** On a registry without repeated objects, destroying removes exactly that
      object: every other entry stays, the registry stays repetition-free, and
      the object is gone. */
  lemma DestroyRemovesOnlyIt(reg: seq<GameObj>, uid: nat)
    requires UniqueUids(reg)
    ensures var r := Destroy(reg, uid);
            UniqueUids(r)
            && (forall k :: 0 <= k < |r| ==> r[k].uid != uid)
            && (forall o :: o in r <==> o in reg && o.uid != uid)
  {
    if IndexOf(reg, uid) >= 0 {
      DestroyKeepsOthers(reg, uid);
    }
  }

  /** After the entry at `i` is spliced out, entries before it keep their
      position and entries after it move down by one. */
  lemma DestroyShifts(reg: seq<GameObj>, uid: nat)
    requires IndexOf(reg, uid) >= 0
    ensures var i := IndexOf(reg, uid);
            var r := Destroy(reg, uid);
            (forall k :: 0 <= k < i ==> r[k] == reg[k])
            && (forall k :: i <= k < |r| ==> r[k] == reg[k + 1])
  {
  }

  /** The case where the object is present: it is spliced out, and only it. */
  lemma DestroyKeepsOthers(reg: seq<GameObj>, uid: nat)
    requires UniqueUids(reg) && IndexOf(reg, uid) >= 0
    ensures var r := Destroy(reg, uid);
            (forall o :: o in r <==> o in reg && o.uid != uid)
            && UniqueUids(r) && (forall k :: 0 <= k < |r| ==> r[k].uid != uid)
  {
    var i := IndexOf(reg, uid);
    var r := Destroy(reg, uid);
    DestroyShifts(reg, uid);
    forall k | 0 <= k < |r| ensures r[k].uid != uid {
      if k >= i { assert r[k] == reg[k + 1]; }
    }
    forall o | o in reg && o.uid != uid ensures o in r {
      var k :| 0 <= k < |reg| && reg[k] == o;
      if k < i { assert r[k] == o; } else { assert r[k - 1] == o; }
    }
    forall o | o in r ensures o in reg {
      var k :| 0 <= k < |r| && r[k] == o;
      if k < i { assert reg[k] == o; } else { assert reg[k + 1] == o; }
    }
    forall a, b | 0 <= a < b < |r| ensures r[a].uid != r[b].uid {
      var a' := if a < i then a else a + 1;
      var b' := if b < i then b else b + 1;
      assert r[a] == reg[a'] && r[b] == reg[b'];
    }
  }

  /** Destroying twice is the same as destroying once. */
  lemma DestroyIdempotent(reg: seq<GameObj>, uid: nat)
    requires UniqueUids(reg)
    ensures Destroy(Destroy(reg, uid), uid) == Destroy(reg, uid)
  {
    DestroyRemovesOnlyIt(reg, uid);
  }

  /** `gameObjects.find(obj => obj.canvas?.id === id)`: the first object with a
      canvas whose id is `id`. */
  function FindById(reg: seq<GameObj>, id: string): (o: Option<GameObj>)
    ensures o.None? <==> forall k :: 0 <= k < |reg| ==> !(reg[k].hasCanvas && reg[k].id == id)
    ensures o.Some? ==> o.value in reg && o.value.hasCanvas && o.value.id == id
    ensures o.Some? ==> exists k :: 0 <= k < |reg| && reg[k] == o.value
                                   && forall j :: 0 <= j < k ==> !(reg[j].hasCanvas && reg[j].id == id)
  {
    if |reg| == 0 then None
    else if reg[0].hasCanvas && reg[0].id == id then Some(reg[0])
    else
      var o := FindById(reg[1..], id);
      assert forall k :: 1 <= k < |reg| ==> reg[k] == reg[1..][k - 1];
      o
  }
}
