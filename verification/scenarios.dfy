/** Worked examples on concrete values: the level's pickup-and-slot sequence,
    touch points on literal rectangles, and end-of-game counts. */
module Scenarios {
  import opened Optional
  import opened Geometry
  import opened Registry
  import Progress
  import Inventory
  import KeyPress
  import Collision
  import LevelSlot
  import StorageSlot
  import NpcKeys
  import Seqs

  /** A registry entry with no hitbox, no sprite position and no collisions. */
  function Obj(uid: nat, id: string, rect: Rect, greeting: Option<string>, kind: Kind): GameObj {
    GameObj(uid, id, true, rect, NoHitbox, None, 0.0, 0.0, greeting, [], kind)
  }

  /** Two pickups, then two presses of `e` on one slot whose `required_keys` is 2:
      the first press fills the slot and spends one key, the threshold 2 is not
      met so no victory, and the second press finds the slot filled and does nothing. */
  lemma OneSlotRequiringTwoKeys()
    ensures var d := Progress.SetPlayerItem(Progress.SetPlayerItem(Progress.Initial()));
            var player := Obj(1, "Player", Rect(0.0, 0.0, 10.0, 10.0), Some(LevelSlot.Greeting), Player);
            var reg := [player];
            var b := LevelSlot.Construct(LevelSlot.Config("slot", "slot.png", None, Some(2)), LevelSlot.InitialTally).value;
            var s := b.slot.(collisionEvents := ["Player"]);
            var w := LevelSlot.World(d, Inventory.Load(None), b.tally);
            var p1 := LevelSlot.HandleKeyDown(s, w, reg, "e");
            var p2 := LevelSlot.HandleKeyDown(p1.slot, p1.world, reg, "e");
            && d.playerItem == 2 && d.inventory == ["key", "key"]
            && p1.slot.isFilled && p1.world.data.playerItem == 1 && p1.world.tally.filledSlots == 1
            && !p1.victory
            && p2.world == p1.world && !p2.victory
  {
    var d := Progress.SetPlayerItem(Progress.SetPlayerItem(Progress.Initial()));
    assert d.inventory == ["key", "key"];
    var player := Obj(1, "Player", Rect(0.0, 0.0, 10.0, 10.0), Some(LevelSlot.Greeting), Player);
    var reg := [player];
    assert LevelSlot.GreetsWith(reg, "Player", LevelSlot.Greeting);
    assert LevelSlot.HasCollided(["Player"], reg, LevelSlot.Greeting);
    Progress.HeldCountIffHasKey(d);
  }

  /** Two slots each built with the default `required_keys` set the threshold to
      1, not 2: the first fill alone shows the victory screen. */
  lemma ThresholdIsNotASum()
    ensures LevelSlot.ConstructAll([LevelSlot.Config("a", "a.png", None, None), LevelSlot.Config("b", "b.png", None, None)],
                                   LevelSlot.InitialTally) == LevelSlot.Tally(0, 1)
  {
    LevelSlot.ThresholdIsLastConstructed(
      [LevelSlot.Config("a", "a.png", None, None), LevelSlot.Config("b", "b.png", None, None)], LevelSlot.InitialTally);
  }

  /** A slot without sprite data throws before it touches the threshold, so the
      threshold stays that of the slot built before it. */
  lemma MissingSpriteKeepsThreshold()
    ensures LevelSlot.ConstructAll([LevelSlot.Config("a", "a.png", None, Some(3)), LevelSlot.Config("b", "", None, Some(5))],
                                   LevelSlot.InitialTally) == LevelSlot.Tally(0, 3)
  {
  }

  /** Rectangles that only share an edge: no hit and no touch point at all. */
  lemma EdgeContactHasNoTouchPoints()
    ensures var a := Obj(1, "a", Rect(0.0, 90.0, 10.0, 10.0), None, Player);
            var b := Obj(2, "b", Rect(0.0, 100.0, 10.0, 10.0), None, Scenery);
            var c := Collision.IsCollision(a, b);
            !c.hit && c.own == Collision.Touch("a", false, false, false, false)
            && c.other == Collision.Touch("b", false, false, false, false)
  {
    var a := Obj(1, "a", Rect(0.0, 90.0, 10.0, 10.0), None, Player);
    var b := Obj(2, "b", Rect(0.0, 100.0, 10.0, 10.0), None, Scenery);
    Collision.IsCollisionOnEdges(a, b);
    assert Edges(a.rect) == Box(0.0, 90.0, 10.0, 100.0);
    assert Edges(b.rect) == Box(0.0, 100.0, 10.0, 110.0);
  }

  /** Overlapping from above by five pixels: a hit, the upper object touches with
      its top flag, the lower one with its bottom flag, and no side flags. */
  lemma OverlapFromAbove()
    ensures var a := Obj(1, "a", Rect(0.0, 95.0, 10.0, 10.0), None, Player);
            var b := Obj(2, "b", Rect(0.0, 100.0, 10.0, 10.0), None, Scenery);
            var c := Collision.IsCollision(a, b);
            c.hit && c.own == Collision.Touch("a", true, false, false, false)
            && c.other == Collision.Touch("b", false, true, false, false)
  {
    var a := Obj(1, "a", Rect(0.0, 95.0, 10.0, 10.0), None, Player);
    var b := Obj(2, "b", Rect(0.0, 100.0, 10.0, 10.0), None, Scenery);
    Collision.IsCollisionOnEdges(a, b);
    assert Edges(a.rect) == Box(0.0, 95.0, 10.0, 105.0);
    assert Edges(b.rect) == Box(0.0, 100.0, 10.0, 110.0);
  }

  function NpcAt(uid: nat, keys: int): GameObj {
    Obj(uid, "npc", Rect(0.0, 0.0, 1.0, 1.0), None, Npc(keys))
  }

  /** Four NPCs of which three hold two keys: the game does not end. */
  lemma ThreeOfFourFullDoNotEnd()
    ensures !NpcKeys.CheckGameEnd([NpcAt(1, 2), NpcAt(2, 2), NpcAt(3, 2), NpcAt(4, 1)])
    ensures NpcKeys.CheckGameEnd([NpcAt(1, 2), NpcAt(2, 2), NpcAt(3, 2), NpcAt(4, 2)])
  {
    var full := [NpcAt(1, 2), NpcAt(2, 2), NpcAt(3, 2), NpcAt(4, 2)];
    assert NpcKeys.NpcCount(full) == 4;
    NpcKeys.OneShortNeverEnds([NpcAt(1, 2), NpcAt(2, 2), NpcAt(3, 2), NpcAt(4, 1)], 3);
  }

  /** The prison level lists two NPCs, so the NPC route can never end it. Its
      player's id is "Player", which is not one of the ids the NPC accepts as a
      player, so even a touched NPC never receives a key there. */
  lemma TwoNpcLevelNeverEnds(keys1: int, keys2: int, d: Progress.Data, store: map<string, int>)
    ensures !NpcKeys.CheckGameEnd([Obj(1, "Player", Rect(0.0, 0.0, 1.0, 1.0), None, Player),
                                   NpcAt(2, keys1), NpcAt(3, keys2)])
    ensures var npc := NpcAt(2, keys1).(collisionEvents := ["Player"]);
            var reg := [Obj(1, "Player", Rect(0.0, 0.0, 1.0, 1.0), None, Player), npc, NpcAt(3, keys2)];
            NpcKeys.HandleKeyDown(NpcKeys.World(reg, d, store), 2, "q").gave == None
  {
    var npc := NpcAt(2, keys1).(collisionEvents := ["Player"]);
    assert !NpcKeys.TouchedByPlayer(npc.collisionEvents);
    var reg := [Obj(1, "Player", Rect(0.0, 0.0, 1.0, 1.0), None, Player), NpcAt(2, keys1), NpcAt(3, keys2)];
    assert NpcKeys.NpcCount(reg[2..]) == 1 by { assert reg[2..][1..] == []; }
    assert NpcKeys.NpcCount(reg[1..]) == 2 by { assert reg[1..][1..] == reg[2..]; }
    assert NpcKeys.NpcCount(reg) == 2;
    NpcKeys.FewNpcsNeverEnd(reg);
  }

  function SlotAt(uid: nat, x: real, filled: bool, touching: Option<nat>): GameObj {
    GameObj(uid, "keySlot", true, Rect(x, 0.0, 10.0, 10.0), NoHitbox, Some(Point(x, 0.0)), 10.0, 10.0,
            None, [], KeySlot(filled, touching))
  }

  /** Two slots, both touched by the player, and two spoons in the item list and
      in storage. A `q` press reaches the item module's listener first, which
      takes one spoon; slot 1 then takes the other, and slot 2 finds none and
      asks for a key. No victory follows, and a second press changes nothing. */
  lemma TwoSlotsTwoSpoons()
    ensures var w := StorageSlot.World([SlotAt(1, 0.0, false, Some(9)), SlotAt(2, 50.0, false, Some(9))],
                                       Inventory.Store(["spoon", "spoon"], Some(["spoon", "spoon"])), false, false);
            var w1 := KeyPress.Press(w, "q");
            && w1 == StorageSlot.World([SlotAt(1, 0.0, true, Some(9)), SlotAt(2, 50.0, false, Some(9))],
                                       Inventory.Store([], Some([])), false, false)
            && StorageSlot.HandleKeyDown(w1, 2, "q").needKey
            && !StorageSlot.CheckVictoryCondition(w1).victory
            && KeyPress.Press(w1, "q") == w1
  {
    var reg := [SlotAt(1, 0.0, false, Some(9)), SlotAt(2, 50.0, false, Some(9))];
    assert KeyPress.SlotUids(reg) == [1, 2] by { assert reg[1..][1..] == []; }
    var inv := Inventory.Store(["spoon", "spoon"], Some(["spoon", "spoon"]));
    assert Seqs.IndexOf(inv.items, "spoon") == 0;
    assert Seqs.RemoveAt(inv.items, 0) == ["spoon"];
    assert Inventory.OnKeyDown(inv, "q") == Inventory.Store(["spoon"], Some(["spoon"]));
    SpoonPlaced();
    var w1 := StorageSlot.World([SlotAt(1, 0.0, true, Some(9)), SlotAt(2, 50.0, false, Some(9))],
                                Inventory.Store([], Some([])), false, false);
    assert StorageSlot.HandleKeyDown(w1, 2, "q").needKey by {
      assert Find(w1.registry, 2) == Some(w1.registry[1]);
    }
    StorageSlot.NoStoredSpoonChangesNothing(w1, 2, "q");
    StorageSlot.NoStoredSpoonChangesNothing(w1, 1, "q");
    assert KeyPress.SlotUids(w1.registry) == [1, 2] by { assert w1.registry[1..][1..] == []; }
    assert StorageSlot.SlotCount(w1.registry) == 2;
    assert !w1.registry[1].kind.isFilled;
  }

  /** Slot 1 takes the one spoon left after the item module's listener. */
  lemma SpoonPlaced()
    ensures StorageSlot.HandleKeyDown(
              StorageSlot.World([SlotAt(1, 0.0, false, Some(9)), SlotAt(2, 50.0, false, Some(9))],
                                Inventory.Store(["spoon"], Some(["spoon"])), false, false),
              1, "q").world
            == StorageSlot.World([SlotAt(1, 0.0, true, Some(9)), SlotAt(2, 50.0, false, Some(9))],
                                 Inventory.Store([], Some([])), false, false)
  {
    var inv := Inventory.Store(["spoon"], Some(["spoon"]));
    var reg := [SlotAt(1, 0.0, false, Some(9)), SlotAt(2, 50.0, false, Some(9))];
    assert Find(reg, 1) == Some(reg[0]);
    assert Seqs.IndexOf(inv.items, "spoon") == 0;
    assert StorageSlot.AddKey(false, inv) == StorageSlot.Added(true, Inventory.Store([], Some([])), true);
  }

  /** After a reload the item list is empty while storage still holds a spoon:
      the item module's listener finds nothing to remove, the touched slot fills
      from storage, and storage empties while the item list stays empty. */
  lemma FillFromStorageAfterReload()
    ensures var w := StorageSlot.World([SlotAt(1, 0.0, false, Some(9))], Inventory.Load(Some(["spoon"])), false, false);
            KeyPress.Press(w, "q")
            == StorageSlot.World([SlotAt(1, 0.0, true, Some(9))], Inventory.Store([], Some([])), false, false)
  {
    var reg := [SlotAt(1, 0.0, false, Some(9))];
    assert KeyPress.SlotUids(reg) == [1];
    assert Find(reg, 1) == Some(reg[0]);
    var inv := Inventory.Load(Some(["spoon"]));
    assert Seqs.IndexOf(["spoon"], "spoon") == 0;
    assert StorageSlot.AddKey(false, inv) == StorageSlot.Added(true, Inventory.Store([], Some([])), true);
  }
}
