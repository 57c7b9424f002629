/** One keydown as the document delivers it to the storage design. Inventory.js
    registers its keydown listener when the module loads, which is before any
    KeySlot.js constructor registers a slot's listener; listeners on the same
    target run in registration order. So on every press the item module's
    handler runs first, and then each slot's handler, in the order the slots
    were constructed, which is their registry order. */
module KeyPress {
  import opened Registry
  import Inventory
  import StorageSlot
  import Seqs

  /** The uids of the key slots, in registry order. */
  function SlotUids(reg: seq<GameObj>): (u: seq<nat>)
    ensures |u| == StorageSlot.SlotCount(reg)
  {
    if |reg| == 0 then []
    else (if reg[0].kind.KeySlot? then [reg[0].uid] else []) + SlotUids(reg[1..])
  }

  /** The slots' listeners, one after the other. They react to `q` only. */
  function SlotListeners(w: StorageSlot.World, uids: seq<nat>, key: string): (r: StorageSlot.World)
    ensures r.victoryAchieved == w.victoryAchieved && r.paused == w.paused
    ensures |r.registry| == |w.registry|
    ensures key != StorageSlot.PlaceKey ==> r == w
    decreases |uids|
  {
    if |uids| == 0 then w
    else SlotListeners(StorageSlot.HandleKeyDown(w, uids[0], key).world, uids[1..], key)
  }

  /** A keydown: the item module's listener, then every slot's listener. `Q`
      reaches only the item module, which takes a spoon; keys other than `q`
      and `Q` change nothing. */
  function Press(w: StorageSlot.World, key: string): (r: StorageSlot.World)
    ensures r.victoryAchieved == w.victoryAchieved && r.paused == w.paused
    ensures |r.registry| == |w.registry|
    ensures key == "Q" ==> r == w.(inv := Inventory.RemoveItem(w.inv, Inventory.SpoonTag))
    ensures key != "q" && key != "Q" ==> r == w
  {
    SlotListeners(w.(inv := Inventory.OnKeyDown(w.inv, key)), SlotUids(w.registry), key)
  }

  /** Across the slots' listeners every newly filled slot used up one stored
      spoon, and a listed spoon still means storage mirrors the list. */
  lemma {:induction false} ListenersSpendOneSpoonPerFill(w: StorageSlot.World, uids: seq<nat>, key: string)
    requires Inventory.SpoonMirrored(w.inv)
    ensures var r := SlotListeners(w, uids, key);
            && Inventory.SpoonMirrored(r.inv)
            && r.victoryAchieved == w.victoryAchieved
            && StorageSlot.FilledCount(w.registry) <= StorageSlot.FilledCount(r.registry)
            && StorageSlot.FilledCount(r.registry) - StorageSlot.FilledCount(w.registry)
               + StorageSlot.Spoons(StorageSlot.Stored(r.inv))
               == StorageSlot.Spoons(StorageSlot.Stored(w.inv))
    decreases |uids|
  {
    if |uids| > 0 {
      var p := StorageSlot.HandleKeyDown(w, uids[0], key).world;
      StorageSlot.SlotPressStep(w, uids[0], key);
      if p != w {
        Seqs.RemoveFirstMultiset(StorageSlot.Stored(w.inv), Inventory.SpoonTag);
      }
      ListenersSpendOneSpoonPerFill(p, uids[1..], key);
    }
  }

  /** A `q` press: the item module takes one spoon from a list that holds one,
      and each slot the press fills takes one more from storage. So the slots
      filled, the spoons left in storage and the item module's spoon add up to
      the spoons stored before. */
  lemma PressSpendsSpoons(w: StorageSlot.World)
    requires Inventory.SpoonMirrored(w.inv)
    ensures var r := Press(w, "q");
            var taken := if Inventory.SpoonTag in w.inv.items then 1 else 0;
            && Inventory.SpoonMirrored(r.inv)
            && r.victoryAchieved == w.victoryAchieved
            && StorageSlot.FilledCount(w.registry) <= StorageSlot.FilledCount(r.registry)
            && StorageSlot.FilledCount(r.registry) - StorageSlot.FilledCount(w.registry)
               + StorageSlot.Spoons(StorageSlot.Stored(r.inv)) + taken
               == StorageSlot.Spoons(StorageSlot.Stored(w.inv))
  {
    var mid := w.(inv := Inventory.OnKeyDown(w.inv, "q"));
    if Inventory.SpoonTag in w.inv.items {
      Seqs.RemoveFirstMultiset(w.inv.items, Inventory.SpoonTag);
    }
    ListenersSpendOneSpoonPerFill(mid, SlotUids(w.registry), "q");
  }

  /** While the item list holds a spoon, a press fills fewer slots than there
      are spoons: the item module's listener always takes the first one. */
  lemma PressFillsFewerSlotsThanSpoons(w: StorageSlot.World)
    requires Inventory.SpoonMirrored(w.inv) && Inventory.SpoonTag in w.inv.items
    ensures StorageSlot.FilledCount(Press(w, "q").registry) - StorageSlot.FilledCount(w.registry)
            < StorageSlot.Spoons(w.inv.items)
  {
    PressSpendsSpoons(w);
  }

  /** The last spoon, listed and stored: the press removes it, every slot finds
      storage empty of spoons, and no slot fills. */
  lemma LastSpoonFillsNoSlot(w: StorageSlot.World)
    requires Inventory.Synced(w.inv) && StorageSlot.Spoons(w.inv.items) == 1
    ensures var r := Press(w, "q");
            && StorageSlot.FilledCount(r.registry) == StorageSlot.FilledCount(w.registry)
            && Inventory.SpoonTag !in r.inv.items
            && Inventory.SpoonTag !in StorageSlot.Stored(r.inv)
  {
    PressSpendsSpoons(w);
    var r := Press(w, "q");
    assert StorageSlot.Spoons(StorageSlot.Stored(r.inv)) == 0;
  }
}
