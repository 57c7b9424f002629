/** Key slot, level-data design (WorkingKeySlot+Data.js). Pressing `e` while the
    slot touches the player (the object whose greeting asks for help escaping
    the prison) and a key is held fills the slot, spends the key, and bumps a
    module-wide tally. The module-wide `filledSlots` and
    `totalRequiredSlots` are the `Tally` value; each slot's `required_keys`
    only overwrites the threshold when that slot is constructed. */
module LevelSlot {
  import opened Optional
  import opened Registry
  import Progress
  import Inventory
  import Sprite
  import Collision
  import Seqs

  /** The greeting of the object a slot must be touching. */
  const Greeting: string := "Hello, please help me escape this prison."
  const InteractKey: string := "e"

  /** The module-level `filledSlots` and `totalRequiredSlots`. */
  datatype Tally = Tally(filledSlots: nat, totalRequiredSlots: int)

  const InitialTally: Tally := Tally(0, 0)

  /** The constructor's inputs that the state logic uses; `src` is the sprite
      sheet path, empty when the data has none. */
  datatype Config = Config(id: string, src: string, slotIndex: Option<int>, requiredKeys: Option<int>)

  datatype Slot = Slot(id: string, slotIndex: int, requiredKeys: int, isFilled: bool,
                       collisionEvents: seq<string>, anim: Sprite.Anim)

  /** JavaScript's `v || d` on an optional number: absent or zero gives `d`. */
  function OrDefault(v: Option<int>, d: int): (r: int)
    ensures v.Some? && v.value != 0 ==> r == v.value
    ensures v.None? || v.value == 0 ==> r == d
  {
    if v.Some? && v.value != 0 then v.value else d
  }

  /** The canvas id: an empty id falls back to "default". */
  function CanvasId(id: string): (r: string)
    ensures r != ""
    ensures id != "" ==> r == id
    ensures id == "" ==> r == "default"
  {
    if id == "" then "default" else id
  }

  datatype Built = Built(slot: Slot, tally: Tally)

  /** The constructor: without sprite data it throws ("Sprite data is required")
      before touching the threshold or the registry, which `None` stands for.
      Otherwise it builds an unfilled slot whose `required_keys` (default 1)
      becomes the module-wide threshold; the filled count is untouched. */
  function Construct(cfg: Config, t: Tally): (r: Option<Built>)
    ensures r.None? <==> cfg.src == ""
    ensures r.Some? ==> var b := r.value;
              && !b.slot.isFilled && b.slot.collisionEvents == [] && b.slot.anim == Sprite.Start
              && b.slot.id == CanvasId(cfg.id)
              && b.slot.requiredKeys == OrDefault(cfg.requiredKeys, 1) && b.slot.requiredKeys != 0
              && b.slot.slotIndex == OrDefault(cfg.slotIndex, 0)
              && b.tally == Tally(t.filledSlots, b.slot.requiredKeys)
  {
    if cfg.src == "" then None
    else
      var slot := Slot(CanvasId(cfg.id), OrDefault(cfg.slotIndex, 0), OrDefault(cfg.requiredKeys, 1),
                       false, [], Sprite.Start);
      Some(Built(slot, Tally(t.filledSlots, slot.requiredKeys)))
  }

  /** Constructing several slots in order, keeping only the tally; a throw
      ends the sequence. */
  function ConstructAll(cfgs: seq<Config>, t: Tally): Tally
    decreases |cfgs|
  {
    if |cfgs| == 0 then t
    else match Construct(cfgs[0], t)
      case None => t
      case Some(b) => ConstructAll(cfgs[1..], b.tally)
  }

  /** How many slots are built before the first configuration without sprite data. */
  function BuiltCount(cfgs: seq<Config>): (n: nat)
    ensures n <= |cfgs|
    ensures forall k :: 0 <= k < n ==> cfgs[k].src != ""
    ensures n < |cfgs| ==> cfgs[n].src == ""
  {
    if |cfgs| == 0 || cfgs[0].src == "" then 0
    else
      var n := BuiltCount(cfgs[1..]);
      assert forall k :: 1 <= k < |cfgs| ==> cfgs[k] == cfgs[1..][k - 1];
      n + 1
  }

  /** The threshold is the `required_keys` of the slot constructed last, not a
      sum over the slots; when the first slot already throws it is as before.
      Construction never changes the filled count. */
  lemma {:induction false} ThresholdIsLastConstructed(cfgs: seq<Config>, t: Tally)
    ensures var n := BuiltCount(cfgs);
            && (n == 0 ==> ConstructAll(cfgs, t) == t)
            && (n > 0 ==> ConstructAll(cfgs, t).totalRequiredSlots == OrDefault(cfgs[n - 1].requiredKeys, 1))
    ensures ConstructAll(cfgs, t).filledSlots == t.filledSlots
    decreases |cfgs|
  {
    if |cfgs| > 0 && cfgs[0].src != "" {
      var b := Construct(cfgs[0], t).value;
      ThresholdIsLastConstructed(cfgs[1..], b.tally);
      assert BuiltCount(cfgs) == BuiltCount(cfgs[1..]) + 1;
      if BuiltCount(cfgs[1..]) > 0 {
        assert cfgs[1..][BuiltCount(cfgs[1..]) - 1] == cfgs[BuiltCount(cfgs) - 1];
      }
    }
  }

  /** `KeySlot.resetSlots()`: only the filled count goes back to zero. */
  function ResetSlots(t: Tally): (r: Tally)
    ensures r.filledSlots == 0 && r.totalRequiredSlots == t.totalRequiredSlots
  {
    t.(filledSlots := 0)
  }

  /** `hasCollided(expected)`: some id in the collision list names a registered
      object whose greeting is `expected`. */
  function HasCollided(events: seq<string>, reg: seq<GameObj>, expected: string): (b: bool)
    ensures b <==> exists i :: 0 <= i < |events| && GreetsWith(reg, events[i], expected)
  {
    if |events| == 0 then false
    else if GreetsWith(reg, events[0], expected) then true
    else
      assert forall i :: 1 <= i < |events| ==> events[i] == events[1..][i - 1];
      HasCollided(events[1..], reg, expected)
  }

  /** The object found for `id` carries the greeting `expected`. */
  predicate GreetsWith(reg: seq<GameObj>, id: string, expected: string) {
    var o := FindById(reg, id);
    o.Some? && o.value.greeting == Some(expected)
  }

  /** The game state a key press reads and writes besides the slot itself: the
      shared progress store, the inventory list, and the module-wide tally. */
  datatype World = World(data: Progress.Data, items: Inventory.Store, tally: Tally)

  /** The outcome of a key press; `victory` records a call to `showVictoryScreen`. */
  datatype Press = Press(slot: Slot, world: World, victory: bool)

  /** Everything a press needs in order to fill the slot. */
  predicate CanFill(s: Slot, w: World, reg: seq<GameObj>, key: string) {
    && key == InteractKey
    && HasCollided(s.collisionEvents, reg, Greeting)
    && !s.isFilled
    && w.data.playerItem > 0
    && Progress.HasItem(w.data, Progress.KeyTag)
  }

  /** `handleKeyDown`: a successful press fills the slot, spends one key from the
      store and one from the inventory list, and adds one to the filled count;
      the victory screen is shown whenever the count then reaches the threshold.
      Any other press changes nothing. */
  function HandleKeyDown(s: Slot, w: World, reg: seq<GameObj>, key: string): (p: Press)
    ensures CanFill(s, w, reg, key) ==>
              && p.slot == s.(isFilled := true)
              && p.world.tally == w.tally.(filledSlots := w.tally.filledSlots + 1)
              && p.world.data.playerItem == w.data.playerItem - 1
              && p.world.data.inventory == Seqs.RemoveFirst(w.data.inventory, Progress.KeyTag)
              && p.world.items == Inventory.RemoveItem(w.items, Progress.KeyTag)
    ensures !CanFill(s, w, reg, key) ==> p.slot == s && p.world == w && !p.victory
    ensures p.victory <==> CanFill(s, w, reg, key) && w.tally.filledSlots + 1 >= w.tally.totalRequiredSlots
    ensures Progress.Consistent(w.data) ==> Progress.Consistent(p.world.data)
  {
    if CanFill(s, w, reg, key) then
      var data := Progress.RemovePlayerItem(w.data, Progress.KeyTag).data;
      var items := Inventory.RemoveItem(w.items, Progress.KeyTag);
      var tally := w.tally.(filledSlots := w.tally.filledSlots + 1);
      Press(s.(isFilled := true), World(data, items, tally), tally.filledSlots >= tally.totalRequiredSlots)
    else
      Press(s, w, false)
  }

  /** Every fill spends exactly one held key: held keys plus filled slots never change. */
  lemma PressConservesKeys(s: Slot, w: World, reg: seq<GameObj>, key: string)
    ensures var p := HandleKeyDown(s, w, reg, key);
            p.world.data.playerItem + p.world.tally.filledSlots == w.data.playerItem + w.tally.filledSlots
  {
  }

  /** A second press on the same slot is a no-op: no key is spent twice and the
      count moves once. */
  lemma SecondPressChangesNothing(s: Slot, w: World, reg: seq<GameObj>, key: string, key2: string)
    ensures var p := HandleKeyDown(s, w, reg, key);
            var q := HandleKeyDown(p.slot, p.world, reg, key2);
            p.slot.isFilled ==> q.slot == p.slot && q.world == p.world && !q.victory
  {
  }

  /** There is no victory guard: once the threshold is met, every further fill of
      another slot shows the victory screen again. */
  lemma VictoryRepeatsOnLaterFills(s1: Slot, s2: Slot, w: World, reg: seq<GameObj>)
    requires CanFill(s1, w, reg, InteractKey)
    requires w.tally.filledSlots + 1 >= w.tally.totalRequiredSlots
    requires !s2.isFilled && HasCollided(s2.collisionEvents, reg, Greeting)
    requires Progress.Consistent(w.data) && Progress.OnlyKeys(w.data) && w.data.playerItem >= 2
    ensures var p := HandleKeyDown(s1, w, reg, InteractKey);
            p.victory && HandleKeyDown(s2, p.world, reg, InteractKey).victory
  {
    var p := HandleKeyDown(s1, w, reg, InteractKey);
    Progress.HeldCountIffHasKey(p.world.data);
  }

  /** `handleCollisionEvent()`: the character bookkeeping of the collision list;
      `hint` is whether the slot requests its "place key" hint (a new player id);
      the hint itself is not shown on a filled slot. */
  function OnCollision(s: Slot, reg: seq<GameObj>, objectId: string): (r: (Slot, bool))
    ensures r.0 == s.(collisionEvents := Collision.Record(s.collisionEvents, objectId))
    ensures r.1 <==> objectId !in s.collisionEvents && IsPlayerId(objectId)
                     && exists k :: 0 <= k < |reg| && reg[k].hasCanvas && reg[k].id == objectId
  {
    var h := Collision.HandleCollisionEvent(s.collisionEvents, reg, objectId);
    (s.(collisionEvents := h.events), h.notifyPlayer)
  }
}
