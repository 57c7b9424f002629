/** Key slot, storage-driven design (KeySlot.js). Pressing `q` while a player
    touches the slot consumes a "spoon" from the stored item list and fills the
    slot. Every frame the slot refreshes which player touches it and, until
    victory, checks whether every key slot in the registry is filled. The slot's
    own fill flag and touching player live in its registry entry, because the
    victory check reads every slot through the registry. */
module StorageSlot {
  import opened Optional
  import opened Registry
  import Inventory
  import Seqs

  const PlaceKey: string := "q"
  /** Width and height assumed for an object whose own are missing or zero. */
  const DefaultSize: real := 30.0

  /** The stored item list as `addKey()` reads it: nothing stored reads as empty. */
  function Stored(inv: Inventory.Store): seq<string> {
    inv.saved.Or([])
  }

  /** Result of `addKey()`: the slot's new fill flag, the inventory, the returned flag. */
  datatype Added = Added(isFilled: bool, inv: Inventory.Store, ok: bool)

  /** `addKey()`: a filled slot refuses. Otherwise, when the stored list holds a
      spoon, its first spoon is removed and the list written back, then the
      inventory module removes a spoon from its own list, which (when that list
      has one) writes that list over the stored one; the slot becomes filled.
      With no stored spoon nothing changes. */
  function AddKey(isFilled: bool, inv: Inventory.Store): (r: Added)
    ensures r.ok <==> !isFilled && Inventory.SpoonTag in Stored(inv)
    ensures !r.ok ==> r.inv == inv && r.isFilled == isFilled
    ensures r.ok ==> r.isFilled
    ensures r.ok ==> r.inv.items == Seqs.RemoveFirst(inv.items, Inventory.SpoonTag)
    ensures r.ok && Inventory.SpoonTag in inv.items ==> Inventory.Synced(r.inv)
    ensures r.ok && Inventory.SpoonTag !in inv.items ==> r.inv.saved == Some(Seqs.RemoveFirst(Stored(inv), Inventory.SpoonTag))
  {
    if isFilled then Added(true, inv, false)
    else
      var stored := Stored(inv);
      var i := Seqs.IndexOf(stored, Inventory.SpoonTag);
      if i >= 0 then
        var written := Inventory.Store(inv.items, Some(Seqs.RemoveAt(stored, i)));
        Added(true, Inventory.RemoveItem(written, Inventory.SpoonTag), true)
      else Added(false, inv, false)
  }

  /** Spoons in a list. */
  function Spoons(items: seq<string>): nat {
    multiset(items)[Inventory.SpoonTag]
  }

  /** `addKey()` keeps "a spoon in the list means storage mirrors the list", and
      under it a fill takes exactly the first spoon out of the stored list. */
  lemma AddKeyKeepsSpoonMirrored(isFilled: bool, inv: Inventory.Store)
    requires Inventory.SpoonMirrored(inv)
    ensures var r := AddKey(isFilled, inv);
            && Inventory.SpoonMirrored(r.inv)
            && (r.ok ==> Stored(r.inv) == Seqs.RemoveFirst(Stored(inv), Inventory.SpoonTag))
  {
  }

  /** When the stored list mirrors the inventory list, the two writes agree: one
      spoon leaves the list, and storage still mirrors it. */
  lemma AddKeyWhenSynced(isFilled: bool, inv: Inventory.Store)
    requires Inventory.Synced(inv) && !isFilled && Inventory.SpoonTag in inv.items
    ensures var r := AddKey(isFilled, inv);
            r.ok && Inventory.Synced(r.inv) && r.inv.items == Seqs.RemoveFirst(inv.items, Inventory.SpoonTag)
            && |r.inv.items| == |inv.items| - 1
  {
  }

  /** `obj.width || 30`. */
  function OrDefaultSize(v: real): (r: real)
    ensures v != 0.0 ==> r == v
    ensures v == 0.0 ==> r == DefaultSize
  {
    if v != 0.0 then v else DefaultSize
  }

  /** `checkCollision(obj)`: false for an object without a position; otherwise a
      strict overlap of the slot's box with the object's box, where the object's
      missing or zero size counts as 30. */
  function CheckCollision(me: GameObj, obj: GameObj): (b: bool)
    requires me.position.Some?
    ensures obj.position.None? ==> !b
    ensures obj.position.Some? ==>
              (b <==> (&& obj.position.value.x < me.position.value.x + me.width
                       && me.position.value.x < obj.position.value.x + OrDefaultSize(obj.width)
                       && obj.position.value.y < me.position.value.y + me.height
                       && me.position.value.y < obj.position.value.y + OrDefaultSize(obj.height)))
  {
    match obj.position
    case None => false
    case Some(p) =>
      var q := me.position.value;
      p.x < q.x + me.width && p.x + OrDefaultSize(obj.width) > q.x
      && p.y < q.y + me.height && p.y + OrDefaultSize(obj.height) > q.y
  }

  /** Boxes that only share an edge do not collide. */
  lemma SharedEdgeIsNoCollision(me: GameObj, obj: GameObj)
    requires me.position.Some? && obj.position.Some?
    requires || obj.position.value.x == me.position.value.x + me.width
             || obj.position.value.x + OrDefaultSize(obj.width) == me.position.value.x
             || obj.position.value.y == me.position.value.y + me.height
             || obj.position.value.y + OrDefaultSize(obj.height) == me.position.value.y
    ensures !CheckCollision(me, obj)
  {
  }

  /** Objects the slot treats as players. */
  predicate IsPlayerObj(o: GameObj) {
    o.kind.Player? || (o.hasCanvas && IsPlayerId(o.id))
  }

  predicate TouchesPlayer(me: GameObj, o: GameObj)
    requires me.position.Some?
  {
    IsPlayerObj(o) && CheckCollision(me, o)
  }

  /** Index of the first player in registry order that the slot touches, or -1. */
  function FirstTouchingPlayer(me: GameObj, reg: seq<GameObj>): (k: int)
    requires me.position.Some?
    ensures -1 <= k < |reg|
    ensures k == -1 <==> forall j :: 0 <= j < |reg| ==> !TouchesPlayer(me, reg[j])
    ensures 0 <= k ==> TouchesPlayer(me, reg[k]) && forall j :: 0 <= j < k ==> !TouchesPlayer(me, reg[j])
  {
    if |reg| == 0 then -1
    else if TouchesPlayer(me, reg[0]) then 0
    else
      var k := FirstTouchingPlayer(me, reg[1..]);
      assert forall j :: 1 <= j < |reg| ==> reg[j] == reg[1..][j - 1];
      if k == -1 then -1 else k + 1
  }

  /** `checkAllPlayerCollisions()`: the first touching player, or none. */
  function CollidedPlayer(me: GameObj, reg: seq<GameObj>): (p: Option<nat>)
    requires me.position.Some?
    ensures p.None? <==> forall j :: 0 <= j < |reg| ==> !TouchesPlayer(me, reg[j])
    ensures p.Some? ==> exists k :: 0 <= k < |reg| && reg[k].uid == p.value && TouchesPlayer(me, reg[k])
                                   && forall j :: 0 <= j < k ==> !TouchesPlayer(me, reg[j])
  {
    var k := FirstTouchingPlayer(me, reg);
    if k < 0 then None else Some(reg[k].uid)
  }

  /** Number of key slots in the registry. */
  function SlotCount(reg: seq<GameObj>): (n: nat)
    ensures n <= |reg|
    ensures n == 0 <==> forall k :: 0 <= k < |reg| ==> !reg[k].kind.KeySlot?
  {
    if |reg| == 0 then 0
    else
      assert forall k :: 1 <= k < |reg| ==> reg[k] == reg[1..][k - 1];
      (if reg[0].kind.KeySlot? then 1 else 0) + SlotCount(reg[1..])
  }

  /** 1 for a filled key slot, 0 for anything else. */
  function Filled(o: GameObj): nat {
    if o.kind.KeySlot? && o.kind.isFilled then 1 else 0
  }

  /** Number of filled key slots in the registry. */
  function FilledCount(reg: seq<GameObj>): (n: nat)
    ensures n <= SlotCount(reg)
    ensures n == SlotCount(reg) <==> forall k :: 0 <= k < |reg| && reg[k].kind.KeySlot? ==> reg[k].kind.isFilled
  {
    if |reg| == 0 then 0
    else
      assert forall k :: 1 <= k < |reg| ==> reg[k] == reg[1..][k - 1];
      Filled(reg[0]) + FilledCount(reg[1..])
  }

  /** Rewriting one entry changes the filled count by that entry's change only. */
  lemma {:induction false} FilledCountAfterUpdate(reg: seq<GameObj>, i: nat, o: GameObj)
    requires i < |reg|
    ensures FilledCount(reg[i := o]) == FilledCount(reg) - Filled(reg[i]) + Filled(o)
    decreases i
  {
    if i > 0 {
      FilledCountAfterUpdate(reg[1..], i - 1, o);
      assert reg[i := o][1..] == reg[1..][i - 1 := o];
    }
  }

  /** The frame-loop state this design reads and writes: the registry, the
      stored item list, and the global `victoryAchieved` and `paused` flags. */
  datatype World = World(registry: seq<GameObj>, inv: Inventory.Store, victoryAchieved: bool, paused: bool)

  /** A step's new world, and whether it showed the victory screen. */
  datatype Step = Step(world: World, victory: bool)

  /** `checkVictoryCondition()`: after victory it does nothing; otherwise victory
      (with the game paused) is declared exactly when every key slot in the
      registry is filled and there is more than one of them. */
  function CheckVictoryCondition(w: World): (s: Step)
    ensures w.victoryAchieved ==> s == Step(w, false)
    ensures s.victory <==> !w.victoryAchieved
                           && (forall k :: 0 <= k < |w.registry| && w.registry[k].kind.KeySlot? ==> w.registry[k].kind.isFilled)
                           && SlotCount(w.registry) > 1
    ensures s.victory ==> s.world == w.(victoryAchieved := true, paused := true)
    ensures !s.victory ==> s.world == w
  {
    if w.victoryAchieved then Step(w, false)
    else if FilledCount(w.registry) == SlotCount(w.registry) && SlotCount(w.registry) > 1 then
      Step(w.(victoryAchieved := true, paused := true), true)
    else Step(w, false)
  }

  /** A single key slot never wins, filled or not. */
  lemma LoneSlotNeverWins(w: World)
    requires SlotCount(w.registry) == 1
    ensures !CheckVictoryCondition(w).victory
  {
  }

  /** The slot with this uid, when it is a positioned key slot in the registry. */
  predicate IsSlotIn(reg: seq<GameObj>, uid: nat) {
    var o := Find(reg, uid);
    o.Some? && o.value.kind.KeySlot? && o.value.position.Some?
  }

  /** The collision part of `update()`: the slot's touching player is refreshed;
      no other entry and nothing outside the registry changes. */
  function RefreshCollision(w: World, uid: nat): (r: World)
    ensures r.inv == w.inv && r.victoryAchieved == w.victoryAchieved && r.paused == w.paused
    ensures |r.registry| == |w.registry|
    ensures !IsSlotIn(w.registry, uid) ==> r == w
    ensures IsSlotIn(w.registry, uid) ==>
              var i := IndexOf(w.registry, uid);
              var me := w.registry[i];
              r.registry[i] == me.(kind := me.kind.(collidedPlayer := CollidedPlayer(me, w.registry)))
    ensures forall k :: 0 <= k < |w.registry| && k != IndexOf(w.registry, uid) ==> r.registry[k] == w.registry[k]
    ensures forall k :: 0 <= k < |w.registry| ==> r.registry[k].kind.KeySlot? == w.registry[k].kind.KeySlot?
    ensures forall k :: 0 <= k < |w.registry| && w.registry[k].kind.KeySlot? ==>
              r.registry[k].kind.isFilled == w.registry[k].kind.isFilled
  {
    if IsSlotIn(w.registry, uid) then
      var me := Find(w.registry, uid).value;
      var me' := me.(kind := me.kind.(collidedPlayer := CollidedPlayer(me, w.registry)));
      w.(registry := Put(w.registry, me'))
    else w
  }

  /** `update()`: refresh the touching player, then check for victory unless it
      was already achieved. */
  function Update(w: World, uid: nat): (s: Step)
    ensures s.victory ==> !w.victoryAchieved && s.world.victoryAchieved
    ensures w.victoryAchieved ==> s.world.victoryAchieved
    ensures !w.victoryAchieved ==> s == CheckVictoryCondition(RefreshCollision(w, uid))
    ensures s.world.inv == w.inv
  {
    var r := RefreshCollision(w, uid);
    if r.victoryAchieved then Step(r, false) else CheckVictoryCondition(r)
  }

  /** After victory, `update()` only refreshes the touching player: no flag, item
      or fill state changes and no second victory screen appears. */
  lemma UpdateAfterVictory(w: World, uid: nat)
    requires w.victoryAchieved
    ensures Update(w, uid) == Step(RefreshCollision(w, uid), false)
  {
  }

  /** `handleKeyDown` on `q`: with a player touching the slot, try `addKey()`;
      `needKey` records the "you need a key" message (a failed add on an unfilled slot). */
  datatype Pressed = Pressed(world: World, needKey: bool)

  function HandleKeyDown(w: World, uid: nat, key: string): (p: Pressed)
    ensures p.world.victoryAchieved == w.victoryAchieved && p.world.paused == w.paused
    ensures |p.world.registry| == |w.registry|
    ensures |p.world.inv.items| + 1 >= |w.inv.items|
    ensures Inventory.Synced(w.inv) ==> Inventory.Synced(p.world.inv)
    ensures key != PlaceKey ==> p == Pressed(w, false)
    ensures forall k :: 0 <= k < |w.registry| && k != IndexOf(w.registry, uid) ==>
              p.world.registry[k] == w.registry[k]
  {
    if key == PlaceKey && IsSlotIn(w.registry, uid) then
      var me := Find(w.registry, uid).value;
      if me.kind.collidedPlayer.Some? then
        var a := AddKey(me.kind.isFilled, w.inv);
        var me' := me.(kind := me.kind.(isFilled := a.isFilled));
        Pressed(w.(registry := Put(w.registry, me'), inv := a.inv), !a.ok && !a.isFilled)
      else Pressed(w, false)
    else Pressed(w, false)
  }

  /** Consuming the spoon and filling the slot go together: a press fills the slot
      exactly when a player touches it, it was empty and a spoon was stored; then
      one spoon leaves the inventory list, and a store that mirrored the list
      still does. Any other press changes neither the slot nor the inventory. */
  lemma PressFillsIffSpoonTaken(w: World, uid: nat)
    requires IsSlotIn(w.registry, uid)
    ensures var me := Find(w.registry, uid).value;
            var p := HandleKeyDown(w, uid, PlaceKey);
            var me2 := Find(p.world.registry, uid);
            var fills := me.kind.collidedPlayer.Some? && !me.kind.isFilled && Inventory.SpoonTag in Stored(w.inv);
            && me2.Some? && me2.value.kind.KeySlot?
            && (me2.value.kind.isFilled <==> me.kind.isFilled || fills)
            && (fills ==> p.world.inv.items == Seqs.RemoveFirst(w.inv.items, Inventory.SpoonTag))
            && (!fills ==> p.world.inv == w.inv)
            && (p.needKey <==> me.kind.collidedPlayer.Some? && !me.kind.isFilled && Inventory.SpoonTag !in Stored(w.inv))
            && (forall k :: 0 <= k < |w.registry| && w.registry[k].uid != uid ==> p.world.registry[k] == w.registry[k])
  {
    var me := Find(w.registry, uid).value;
    var i := IndexOf(w.registry, uid);
    assert w.registry[i] == me;
  }

  /** With no spoon in storage, the slot's own `q` listener changes nothing. */
  lemma NoStoredSpoonChangesNothing(w: World, uid: nat, key: string)
    requires Inventory.SpoonTag !in Stored(w.inv)
    ensures HandleKeyDown(w, uid, key).world == w
  {
    if key == PlaceKey && IsSlotIn(w.registry, uid) {
      var i := IndexOf(w.registry, uid);
      assert Put(w.registry, w.registry[i]) == w.registry;
    }
  }

  /** One slot listener, on a store where a listed spoon means storage mirrors
      the list: either nothing changes, or the slot fills, one more slot counts
      as filled, and the first stored spoon is gone. */
  lemma SlotPressStep(w: World, uid: nat, key: string)
    requires Inventory.SpoonMirrored(w.inv)
    ensures var p := HandleKeyDown(w, uid, key).world;
            && Inventory.SpoonMirrored(p.inv)
            && (p == w
                || (&& Inventory.SpoonTag in Stored(w.inv)
                    && Stored(p.inv) == Seqs.RemoveFirst(Stored(w.inv), Inventory.SpoonTag)
                    && FilledCount(p.registry) == FilledCount(w.registry) + 1))
  {
    if key == PlaceKey && IsSlotIn(w.registry, uid) {
      var i := IndexOf(w.registry, uid);
      var me := w.registry[i];
      if me.kind.collidedPlayer.Some? {
        var a := AddKey(me.kind.isFilled, w.inv);
        AddKeyKeepsSpoonMirrored(me.kind.isFilled, w.inv);
        var me' := me.(kind := me.kind.(isFilled := a.isFilled));
        if a.ok {
          FilledCountAfterUpdate(w.registry, i, me');
        } else {
          assert Put(w.registry, me) == w.registry;
        }
      }
    }
  }

  /** The inputs a frame loop feeds this design. */
  datatype Event = Tick(uid: nat) | KeyDown(uid: nat, key: string)

  /** Run a sequence of events; also count the victory screens shown. */
  function Run(w: World, evs: seq<Event>): (World, nat)
    decreases |evs|
  {
    if |evs| == 0 then (w, 0)
    else
      var s := match evs[0]
               case Tick(u) => Update(w, u)
               case KeyDown(u, k) => Step(HandleKeyDown(w, u, k).world, false);
      var (w2, n) := Run(s.world, evs[1..]);
      (w2, n + (if s.victory then 1 else 0))
  }

  /** Victory fires at most once over any run, and never again once achieved. */
  lemma {:induction false} VictoryAtMostOnce(w: World, evs: seq<Event>)
    ensures Run(w, evs).1 <= 1
    ensures w.victoryAchieved ==> Run(w, evs).1 == 0 && Run(w, evs).0.victoryAchieved
    decreases |evs|
  {
    if |evs| > 0 {
      var s := match evs[0]
               case Tick(u) => Update(w, u)
               case KeyDown(u, k) => Step(HandleKeyDown(w, u, k).world, false);
      VictoryAtMostOnce(s.world, evs[1..]);
    }
  }
}
