# Prison escape: keys, key slots, NPCs and the item list

A Dafny model of the game-state core of a small browser adventure game, the
prison level. The player picks up keys, gives them to NPCs or places them in
key slots, and wins once enough slots are filled or enough NPCs hold their two
keys. The model covers:

- **Progress store** (`Progress`): the `Data` class, with a count of held items
  and a list of their type tags, shared by every object of the level. It
  covers `setPlayerItem`, `addKey`, `removePlayerItem` and `hasItem`.
- **Key slot, level-data design** (`LevelSlot`, `WorkingKeySlot+Data.js`).
  Pressing `e` while the slot's collision list names the player, with a key
  held, fills the slot. The press spends a key from the store and from the
  item list and bumps the module-wide `filledSlots`. When that count reaches
  `totalRequiredSlots`, the victory screen appears.
- **Key slot, storage design** (`StorageSlot`, `KeySlot.js`). Pressing `q`
  while a player touches the slot takes a "spoon" from the stored item list.
  The frame loop refreshes which player touches each slot. It declares
  victory once every key slot is filled and there is more than one slot.
- **One keydown, all listeners** (`KeyPress`). The item module's `q` listener
  is registered when `Inventory.js` loads, before any slot's listener. So on
  every press it takes a spoon first, and each slot then reads the stored
  list after that. While the item list holds a spoon, one press therefore
  fills fewer slots than there are spoons. The last listed spoon fills no
  slot; a spoon left only in storage, as after a reload, still fills one.
- **NPC key exchange** (`NpcKeys`, `Npc.js`). Pressing `q` while a player is
  in the NPC's collision list gives the NPC one key, at most two per NPC. The
  count is saved under the NPC's id. The game ends when every NPC holds two
  keys and there are at least four NPCs.
- **Character collision** (`Geometry`, `Collision`, `Npc.js`). This covers
  the hitbox shrink and the strict overlap test with its touch-point flags. It
  also covers the per-frame pass over the registry, which maintains the
  `collisionEvents` list.
- **Item list** (`Inventory`, `Inventory.js`): at most four tags, mirrored
  into storage after each change. Removal takes out the first occurrence, and
  the `q` key removes a spoon.
- Shared pieces:
  - `Registry`, the live-object list `GameEnv.gameObjects`.
  - `Sprite`, the frame-index advance and `resize`.
  - `Seqs`, which holds `indexOf`, `splice` and `pop` on lists.
  - `Optional`, which holds possibly missing values and the `||` default.
- `Scenarios`: worked examples on concrete values.

Each handler is a pure function from the state it reads to the state it
writes. The inputs are:

- the object,
- the shared store,
- the registry,
- the stored lists and maps,
- the pressed key.

Object identity (`this`, `indexOf(this)`) is modelled as a `uid` field.
Browser storage is modelled as plain values: an absent entry is `None`, and
JSON round-tripping is the identity.

Where the code and its documented behaviour differ, the model follows the code:

- **One press fills a variant A slot**, even when that slot's `required_keys`
  is 2. `required_keys` only overwrites the module-wide threshold when the slot
  is constructed. The threshold is therefore the last-constructed slot's value,
  not a sum. See `Scenarios.OneSlotRequiringTwoKeys` and
  `Scenarios.ThresholdIsNotASum`.
- **Boxes that only share an edge do not collide.** All comparisons in
  `isCollision` are strict, so a box at y=90 with height 10 against one at
  y=100 gives no hit and no touch point. See
  `Scenarios.EdgeContactHasNoTouchPoints`.
- **The item list is not restored on reload.** `Inventory.js` starts its list
  empty and never reads storage back; only `KeySlot.js` reads the stored list.
- **Variant A has no victory guard.** Every fill at or past the threshold
  shows the victory screen again.
- **Variant B writes storage twice on a successful `addKey`.** First it
  writes the stored list minus one spoon. Then `removeItemFromInventory`
  writes the item module's own list over it, whenever that list holds a spoon.
  The two writes always agree. The item list is private to its module, and
  every change to it is written to storage. So whenever the list holds a
  spoon, storage equals the list (`Inventory.RunKeepsSpoonMirrored`,
  `StorageSlot.AddKeyKeepsSpoonMirrored`, `StorageSlot.AddKeyWhenSynced`).
- **A `q` press takes a spoon before any slot sees it.** With two synced
  spoons and two touched slots, one press fills one slot and the other asks
  for a key. See `Scenarios.TwoSlotsTwoSpoons` and `KeyPress.LastSpoonFillsNoSlot`.

## Model

| member | source | states |
|---|---|---|
| `Seqs.IndexOf` | assets/js/adventureGame/Inventory.js:64 | the index is -1 exactly when the item is absent; otherwise it holds the item and no earlier position does |
| `Seqs.RemoveFirstIsRec` | assets/js/adventureGame/Inventory.js:64-66 | removing at `indexOf` equals the element-by-element "drop the first match" definition, for every list |
| `Seqs.RemoveFirstMultiset` | assets/js/adventureGame/WorkingKeySlot+Data.js:455-457 | first-occurrence removal takes exactly one copy of the item when present and leaves every other element's count unchanged |
| `Progress.Initial` | assets/js/adventureGame/WorkingKeySlot+Data.js:434-437 | a new store holds nothing, and its count matches its (empty) tag list |
| `Progress.SetPlayerItem` | assets/js/adventureGame/WorkingKeySlot+Data.js:443-447 | the count rises by one and a key tag is appended; earlier tags are kept; count/list agreement and "only keys" are preserved |
| `Progress.AddKey` | assets/js/adventureGame/WorkingKeySlot+Data.js:470-474 | `addKey` has exactly the effect of `setPlayerItem` |
| `Progress.RemovePlayerItem` | assets/js/adventureGame/WorkingKeySlot+Data.js:449-468 | succeeds iff the count is positive, and a refusal changes nothing; on success the count drops by one and the first matching tag goes when the (non-empty) type is held, otherwise the last tag is popped; count/list agreement and "only keys" are preserved |
| `Progress.HasItem` | assets/js/adventureGame/WorkingKeySlot+Data.js:476-478 | true iff some tag equals the type |
| `Progress.HeldCountIffHasKey` | assets/js/adventureGame/WorkingKeySlot+Data.js:191 | on a consistent store of keys, the slot's two guards (`getPlayerItem() > 0` and `hasItem("key")`) agree |
| `Progress.RemoveUndoesAdd` | assets/js/adventureGame/WorkingKeySlot+Data.js:443-468 | removing a key right after adding one restores a consistent all-key store exactly, with success |
| `Progress.PopUndoesAdd` | assets/js/adventureGame/WorkingKeySlot+Data.js:459-462 | with a type that selects nothing, removal pops the tag the preceding add pushed, restoring any store |
| `Inventory.Load` | assets/js/adventureGame/Inventory.js:1 | the list starts empty on load, whatever storage holds |
| `Inventory.AddItem` | assets/js/adventureGame/Inventory.js:53-61 | below four items the name is appended and storage mirrors the list; at four or more nothing changes; the capacity bound and mirroring are preserved |
| `Inventory.RemoveItem` | assets/js/adventureGame/Inventory.js:63-70 | a present item loses its first occurrence and storage then mirrors the list; an absent item changes nothing, storage included |
| `Inventory.OnKeyDown` | assets/js/adventureGame/Inventory.js:99-103 | `q` and `Q` remove the first spoon exactly as `removeItemFromInventory("spoon")` does; every other key changes nothing |
| `Inventory.KeyDownRemovesAtMostOneSpoon` | assets/js/adventureGame/Inventory.js:99-103 | a key press removes at most one spoon and never changes the count of any other tag |
| `Inventory.RunStaysWithinCapacity` | assets/js/adventureGame/Inventory.js:53-70 | any sequence of adds, removes and key presses keeps a list of at most four items within four |
| `Inventory.RunKeepsSynced` | assets/js/adventureGame/Inventory.js:53-70 | once storage mirrors the list, every later operation keeps it mirrored |
| `Inventory.RunKeepsSpoonMirrored` | assets/js/adventureGame/Inventory.js:1-70 | from load on, whatever storage held, every operation keeps "a spoon in the list means storage equals the list" |
| `Geometry.Shrink` | assets/js/adventureGame/Npc.js:299-316 | left and right each move inward by width times the width percentage, the top moves down by height times the height percentage, and the bottom edge stays |
| `Geometry.OverlapSymmetric` | assets/js/adventureGame/Npc.js:319-324 | the hit test gives the same answer with the two boxes swapped |
| `Geometry.ShrinkWithoutHitbox` | assets/js/adventureGame/Npc.js:300-305 | absent or zero percentages leave the box equal to the rectangle |
| `Geometry.ShrinkStaysInside` | assets/js/adventureGame/Npc.js:307-316 | with width share at most one half and height share at most one, the collision box lies inside the rectangle, bottom edges equal |
| `Registry.IndexOf` | assets/js/adventureGame/WorkingKeySlot+Data.js:408 | -1 exactly when no entry is the object; otherwise the first entry that is |
| `Registry.Destroy` | assets/js/adventureGame/WorkingKeySlot+Data.js:407-419 | an object outside the registry leaves it unchanged; otherwise exactly its entry is spliced out and the rest keep their order |
| `Registry.DestroyRemovesOnlyIt` | assets/js/adventureGame/KeySlot.js:455-466 | on a registry without repeats, after destroy the object is gone, every other object remains, and there are still no repeats |
| `Registry.DestroyIdempotent` | assets/js/adventureGame/KeySlot.js:460-465 | destroying twice equals destroying once |
| `Registry.FindById` | assets/js/adventureGame/WorkingKeySlot+Data.js:309 | finds the first object with a canvas of that id, and finds nothing exactly when there is none |
| `Sprite.Advance` | assets/js/adventureGame/WorkingKeySlot+Data.js:155-158 | each draw raises the counter by one; the frame moves to the next column (wrapping) exactly when the new counter is a multiple of the rate, and stays in range |
| `Sprite.DrawsAdvanceByMultiples` | assets/js/adventureGame/KeySlot.js:258-262 | after n draws the frame index has advanced once per rate multiple the counter passed, modulo the column count |
| `Sprite.FullCycleAtRateOne` | assets/js/adventureGame/KeySlot.js:12 | at the default rate 1, as many draws as there are columns return to the starting column |
| `Sprite.Resize` | assets/js/adventureGame/KeySlot.js:427-448 | the position is carried over in proportion from the old viewport to the new one, which becomes the stored viewport |
| `Sprite.ResizeKeepsProportion` | assets/js/adventureGame/WorkingKeySlot+Data.js:380-401 | the position keeps its proportion of the viewport; size and velocity steps are the new viewport divided by their factors |
| `Sprite.ResizeRoundTrip` | assets/js/adventureGame/KeySlot.js:427-448 | resizing to another viewport and back restores the position |
| `Collision.IsCollision` | assets/js/adventureGame/Npc.js:294-346 | hit iff the two hitbox-shrunk boxes overlap strictly; the touch records carry each side's canvas id |
| `Collision.IsCollisionSwap` | assets/js/adventureGame/Npc.js:326-343 | testing from the other object gives the same hit with the two touch records exchanged |
| `Collision.TouchPointsExclusive` | assets/js/adventureGame/Npc.js:330-341 | the two sides never both claim the same edge |
| `Collision.IsCollisionWithoutHitbox` | assets/js/adventureGame/Npc.js:300-324 | without hitboxes a hit is a strict overlap of the plain rectangles |
| `Collision.IsCollisionOnEdges` | assets/js/adventureGame/Npc.js:308-343 | without hitboxes the hit flag and both sides' touch points are computed on the plain rectangles |
| `Collision.BottomEdgeNotReduced` | assets/js/adventureGame/Npc.js:311-316 | the bottom edge is never shrunk, so a hit needs the full bottom edge below the other's shrunk top |
| `Collision.HitIds` | assets/js/adventureGame/Npc.js:279-286 | an id is listed iff some other object with a canvas is hit and has that id |
| `Collision.RecordAllProperties` | assets/js/adventureGame/Npc.js:352-366 | recording keeps the old list as a prefix, adds exactly the new ids, and never creates a repeat |
| `Collision.ChecksProperties` | assets/js/adventureGame/Npc.js:276-292 | a pass with no hit empties the list; otherwise the list only grows, by exactly the ids of the objects hit, and stays repeat-free |
| `Collision.CollisionChecks` | assets/js/adventureGame/Npc.js:276-292 | the loop over the registry computes exactly that pass |
| `Collision.HandleCollisionEvent` | assets/js/adventureGame/Npc.js:352-366 | a new id is appended once; the object announces itself iff the id is new and names a registered player |
| `LevelSlot.OrDefault` | assets/js/adventureGame/WorkingKeySlot+Data.js:71-72 | `v || d`: absent or zero gives the default, any other value is kept |
| `LevelSlot.CanvasId` | assets/js/adventureGame/WorkingKeySlot+Data.js:38 | an empty id becomes "default"; any other id is kept |
| `LevelSlot.Construct` | assets/js/adventureGame/WorkingKeySlot+Data.js:25-94 | without sprite data the constructor throws and nothing changes; otherwise a new slot is unfilled with an empty collision list, `required_keys` defaults to 1 and overwrites the threshold, and the filled count is untouched |
| `LevelSlot.ThresholdIsLastConstructed` | assets/js/adventureGame/WorkingKeySlot+Data.js:73-85 | after building several slots the threshold is the `required_keys` of the last slot built before any throw (unchanged if the first throws), and the filled count is as before |
| `LevelSlot.ResetSlots` | assets/js/adventureGame/WorkingKeySlot+Data.js:99-101 | the filled count goes to zero and the threshold is kept |
| `LevelSlot.HasCollided` | assets/js/adventureGame/WorkingKeySlot+Data.js:306-320 | true iff some listed id names a registered object with the expected greeting |
| `LevelSlot.HandleKeyDown` | assets/js/adventureGame/WorkingKeySlot+Data.js:185-210 | a press that can fill does so, spends one key from the store and the item list, and adds one to the count; victory shows iff that fill reaches the threshold; any other press changes nothing |
| `LevelSlot.PressConservesKeys` | assets/js/adventureGame/WorkingKeySlot+Data.js:191-200 | held keys plus filled slots is the same before and after any press |
| `LevelSlot.SecondPressChangesNothing` | assets/js/adventureGame/WorkingKeySlot+Data.js:189 | once the slot is filled, a further press on it changes nothing and shows no victory |
| `LevelSlot.VictoryRepeatsOnLaterFills` | assets/js/adventureGame/WorkingKeySlot+Data.js:203-205 | once the threshold is met, filling another slot shows the victory screen again |
| `LevelSlot.OnCollision` | assets/js/adventureGame/WorkingKeySlot+Data.js:323-339 | a new id is recorded once; the hint is requested iff the id is new and names a registered player |
| `StorageSlot.AddKey` | assets/js/adventureGame/KeySlot.js:116-136 | succeeds iff the slot is empty and a spoon is stored, and a failure changes nothing; success fills the slot and takes one spoon from the item list; storage ends as the item list when that list had a spoon, otherwise as the stored list minus one spoon |
| `StorageSlot.AddKeyWhenSynced` | assets/js/adventureGame/KeySlot.js:122-128 | when storage mirrors the item list, the two writes agree: one spoon leaves and storage still mirrors the list |
| `StorageSlot.OrDefaultSize` | assets/js/adventureGame/KeySlot.js:406-407 | `obj.width || 30`: a nonzero size is kept and zero becomes 30 |
| `StorageSlot.CheckCollision` | assets/js/adventureGame/KeySlot.js:399-422 | false without a position; otherwise true iff the boxes overlap strictly, a missing or zero size counting as 30 |
| `StorageSlot.SharedEdgeIsNoCollision` | assets/js/adventureGame/KeySlot.js:410-415 | boxes meeting only at an edge, on any of the four sides, do not collide |
| `StorageSlot.FirstTouchingPlayer` | assets/js/adventureGame/KeySlot.js:304-310 | the first player in registry order that touches the slot, or -1 when none does |
| `StorageSlot.CollidedPlayer` | assets/js/adventureGame/KeySlot.js:295-316 | none iff no player touches the slot; otherwise the earliest touching player |
| `StorageSlot.SlotCount` | assets/js/adventureGame/KeySlot.js:141 | zero iff the registry has no key slot |
| `StorageSlot.FilledCount` | assets/js/adventureGame/KeySlot.js:142 | at most the slot count, and equal to it iff every key slot is filled |
| `StorageSlot.CheckVictoryCondition` | assets/js/adventureGame/KeySlot.js:138-151 | after victory it does nothing; otherwise victory (with pause) iff every slot is filled and there are at least two |
| `StorageSlot.LoneSlotNeverWins` | assets/js/adventureGame/KeySlot.js:146 | a registry with one key slot never wins, filled or not |
| `StorageSlot.RefreshCollision` | assets/js/adventureGame/KeySlot.js:278 | the slot's entry gets the first touching player as `collidedPlayer`; every other entry, the inventory, the flags and all fill states stay |
| `StorageSlot.Update` | assets/js/adventureGame/KeySlot.js:273-290 | the inventory is untouched; before victory a frame refreshes the touching player and then runs the victory check; victory only fires from the not-yet-won state and then sets the flag; a won game stays won |
| `StorageSlot.UpdateAfterVictory` | assets/js/adventureGame/KeySlot.js:280 | after victory an update only refreshes the touching player |
| `StorageSlot.HandleKeyDown` | assets/js/adventureGame/KeySlot.js:322-344 | keys other than `q` change nothing; flags and registry size are kept; at most one item leaves the list; a store that mirrored the list still does |
| `StorageSlot.NoStoredSpoonChangesNothing` | assets/js/adventureGame/KeySlot.js:122-136 | with no spoon in storage, a slot's own listener changes nothing |
| `StorageSlot.AddKeyKeepsSpoonMirrored` | assets/js/adventureGame/KeySlot.js:116-136 | `addKey` keeps "a listed spoon means storage equals the list", and a fill then removes exactly the first stored spoon |
| `StorageSlot.FilledCountAfterUpdate` | assets/js/adventureGame/KeySlot.js:141-146 | rewriting one registry entry changes the filled-slot count by that entry's change only |
| `StorageSlot.SlotPressStep` | assets/js/adventureGame/KeySlot.js:326-337 | a slot's listener either changes nothing, or fills one more slot and takes the first stored spoon |
| `KeyPress.Press` | assets/js/adventureGame/Inventory.js:99-103 | one keydown: the item module's listener, then each slot's listener (KeySlot.js:106) in registry order; `Q` only takes a spoon in the item module; other keys change nothing; victory and pause flags are untouched |
| `KeyPress.ListenersSpendOneSpoonPerFill` | assets/js/adventureGame/KeySlot.js:106 | across the slots' listeners, in registration order, slots filled plus stored spoons left equals stored spoons before |
| `KeyPress.PressSpendsSpoons` | assets/js/adventureGame/Inventory.js:99-103 | a full `q` press, with the item module's listener first: slots filled plus stored spoons left plus the item module's spoon equals stored spoons before; victory is untouched |
| `KeyPress.PressFillsFewerSlotsThanSpoons` | assets/js/adventureGame/Inventory.js:99-103 | while the item list holds a spoon, one press fills fewer slots than there are spoons |
| `KeyPress.LastSpoonFillsNoSlot` | assets/js/adventureGame/Inventory.js:99-103 | with the last spoon listed and stored, a press fills no slot and leaves no spoon in list or storage |
| `StorageSlot.PressFillsIffSpoonTaken` | assets/js/adventureGame/KeySlot.js:326-337 | the slot fills iff a player touches it, it was empty and a spoon was stored, and then one spoon leaves the item list; otherwise the inventory is unchanged; "need a key" shows iff a touched empty slot found no stored spoon; no other registry entry changes |
| `StorageSlot.VictoryAtMostOnce` | assets/js/adventureGame/KeySlot.js:139-148 | over any sequence of frames and key presses victory fires at most once, and never after it was achieved |
| `NpcKeys.GiveKeyToNpc` | assets/js/adventureGame/Npc.js:91-119 | the three branches (given, no keys, already full) are exactly the three cases; only a give moves a key, from the store to the NPC; keys are conserved and never exceed two |
| `NpcKeys.SaveNpcKeyState` | assets/js/adventureGame/Npc.js:190-202 | the map gains this NPC's count under its id; every other entry stays |
| `NpcKeys.LoadNpcKeyState` | assets/js/adventureGame/Npc.js:207-213 | a stored count for the id is loaded; an id without an entry keeps its prior count |
| `NpcKeys.SaveLoadRoundTrip` | assets/js/adventureGame/Npc.js:190-213 | loading after saving gives back the saved count, and other ids load as before |
| `NpcKeys.EveryNpcFull` | assets/js/adventureGame/Npc.js:225 | true iff every NPC has at least two keys |
| `NpcKeys.CheckGameEnd` | assets/js/adventureGame/Npc.js:218-234 | the game ends iff every NPC holds two keys and there are at least four NPCs |
| `NpcKeys.FewNpcsNeverEnd` | assets/js/adventureGame/Npc.js:229 | with fewer than four NPCs the game never ends this way |
| `NpcKeys.OneShortNeverEnds` | assets/js/adventureGame/Npc.js:225-229 | one NPC below two keys keeps the game going |
| `NpcKeys.HandleKeyDown` | assets/js/adventureGame/Npc.js:45-70 | only `q` acts; a `q` press gives a key exactly when the NPC is registered, a player is in its collision list, a key is held and it has fewer than two; the game ends iff a give leaves a registry that meets the end condition; nothing changes without a give |
| `NpcKeys.PressConservesKeys` | assets/js/adventureGame/Npc.js:98-104 | keys held by the player plus keys held by all NPCs are the same after any press |
| `NpcKeys.GiveUpdatesOneEntry` | assets/js/adventureGame/Npc.js:98-107 | a successful give rewrites only this NPC's entry, one key higher (it had fewer than two), takes one item from the store, and saves the new count under its id |
| `NpcKeys.PressKeepsKeysBounded` | assets/js/adventureGame/Npc.js:98-107 | no NPC passes two keys; a give raises this NPC's count by one and saves exactly that count under its id |
| `NpcKeys.Update` | assets/js/adventureGame/Npc.js:36-39 | the NPC's own entry gets the result of `collisionChecks`; every other entry, the store and the saved counts stay |
| `NpcKeys.UpdateKeepsEventsDistinct` | assets/js/adventureGame/Npc.js:276-291 | after a frame the NPC's collision list has no repeats, is empty when nothing was hit, and otherwise keeps its old ids as a prefix |
| `Scenarios.OneSlotRequiringTwoKeys` | assets/js/adventureGame/WorkingKeySlot+Data.js:185-210 | two pickups then two `e` presses on a slot with `required_keys` 2: the first fills it and spends one key without victory, the second does nothing |
| `Scenarios.ThresholdIsNotASum` | assets/js/adventureGame/WorkingKeySlot+Data.js:83-85 | two default slots give threshold 1, not 2 |
| `Scenarios.EdgeContactHasNoTouchPoints` | assets/js/adventureGame/Npc.js:319-343 | boxes at y=90 and y=100 with height 10 give no hit and no touch flag |
| `Scenarios.OverlapFromAbove` | assets/js/adventureGame/Npc.js:319-343 | a five-pixel overlap from above hits, with the upper object's top flag and the lower object's bottom flag |
| `Scenarios.ThreeOfFourFullDoNotEnd` | assets/js/adventureGame/Npc.js:225-229 | four NPCs end the game only when all four hold two keys |
| `Scenarios.TwoNpcLevelNeverEnds` | assets/js/adventureGame/GameLevelPrison.js:157-164 | the prison level's two NPCs can never end the game, whatever their counts; its player's id "Player" is not an id the NPC accepts, so a touched NPC receives no key |
| `Scenarios.TwoSlotsTwoSpoons` | assets/js/adventureGame/KeySlot.js:116-151 | two touched slots and two synced spoons: one full `q` press fills slot 1 only and empties list and storage, slot 2 asks for a key, no victory follows, and a second press changes nothing |
| `Scenarios.FillFromStorageAfterReload` | assets/js/adventureGame/KeySlot.js:122-128 | after a reload (empty item list, stored spoon) a full `q` press fills the slot from storage and storage empties |
| `Scenarios.MissingSpriteKeepsThreshold` | assets/js/adventureGame/WorkingKeySlot+Data.js:73-85 | a slot without sprite data throws and leaves the threshold set by the slot built before it |

## Left out

- Drawing and the DOM are not modelled. This covers canvases, sprite sheets,
  overlays, the victory screens, the hint, status and message pop-ups, audio
  and `console.log`. A handler's effect on screen appears only as a flag in
  its result: `victory`, `notifyPlayer`, `needKey`, or the `Outcome` of a
  give.
- Timers (`setTimeout`, `clearTimeout`) and the `keyup` handlers are not
  modelled; they only clear pop-ups.
- Event-listener registration and removal are not modelled. `Npc.js` binds
  its handlers once and removes those same functions in `destroy`.
  `KeySlot.js` registers freshly bound functions but removes the unbound
  methods, so its listeners stay registered after `destroy`.
  `WorkingKeySlot+Data.js` never removes its listeners.
- StorageSlot.HandleKeyDown: a `q` press on a slot that is no longer in the
  registry changes nothing. In `KeySlot.js` a destroyed slot's listener
  still runs and can still consume a stored spoon; without listeners the
  model cannot express that.
- One `q` press reaches several listeners. On `document`, the item module's
  listener runs first, then every storage slot's listener in construction
  order; `KeyPress.Press` composes these. The NPCs listen on `window`, which
  the event reaches after `document`. Their handler reads the shared store
  and every NPC's registry entry. It writes the store, its own entry and the
  stored "npcKeyStates" map, never the item list or the stored
  "inventoryItems" list, so it is modelled on its own.
- `KeySlot.js` imports `./inventory.js` in lower case. The model treats this
  as the same item module that `Inventory.js` defines.
- Browser storage and JSON are modelled as values. A stored list or map is
  an optional value, and parsing and serialising are the identity. Corrupt
  JSON, and non-numeric counts in the NPC map, are not modelled.
- The NPC quiz is not modelled (`e`/`u`, `handleKeyInteract`, `Prompt`,
  shuffled questions), nor is the random id an NPC gets without one. Those
  ids are never saved under a known key, so an id is an input here.
- `GameObject.js`, `Character.js`, `Player.js`, `Item.js` and `GameEnv.js`
  are not part of this model. What item pickup does is therefore an
  assumption: the model takes the shared store and the item list as separate
  inputs. `Scenarios.OneSlotRequiringTwoKeys` gives keys through
  `setPlayerItem` alone, with an empty item list. Variant A's per-frame
  collision pass comes from `GameObject.js`, so that slot's collision list is
  an input to `LevelSlot.HandleKeyDown`.
- In variant A, `hasCollided` may also match a `getGreeting()` result. The
  model folds both into one optional greeting per registry entry.
- The module-level `levelData` in each file is not modelled. It is
  overwritten by the last object constructed, and the model passes one
  shared store explicitly.
- `draw` with zero columns is not modelled: the frame index becomes `NaN`
  in the original. A zero animation rate cannot arise, because
  `data.ANIMATION_RATE || ANIMATION_RATE` replaces it with the default.
  `Sprite.Advance` requires both to be positive.
- Sprite.ResizeKeepsProportion: positions and sizes are exact reals. Floating-point
  rounding is not modelled, so the round trip is exact here. The resize
  functions also require a nonzero previous viewport, while `resize` divides
  by it without a check; a zero viewport would give `NaN` or `Infinity`.
  The nonzero scale and step factors they require cannot be zero in the
  original, because of the `||` defaults.
- LevelSlot.Construct: a `null` data object, the constructor's default, fails
  at `data.id` before the sprite check. The model has no null configuration.
- Geometry.Shrink: rectangle coordinates are exact reals. Floating-point
  rounding is not modelled.
- The level definition in `GameLevelPrison.js` is a data table and is not
  modelled. Two facts from it appear only as fixtures: it lists two NPCs, in
  `Scenarios.TwoNpcLevelNeverEnds`, and it passes one shared store to every
  object.
