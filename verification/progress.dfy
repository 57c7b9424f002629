/** The shared progress store (`Data` in WorkingKeySlot+Data.js): a count of
    held items and the list of their type tags. One store is shared by every
    object of a level; here it is a value threaded through the step functions. */
module Progress {
  import Seqs

  /** The tag every pickup pushes. */
  const KeyTag: string := "key"

  datatype Data = Data(playerItem: nat, inventory: seq<string>)

  /** The store's invariant: the count is the length of the tag list. */
  predicate Consistent(d: Data) {
    d.playerItem == |d.inventory|
  }

  /** Every held tag is a key (the only tag the store itself ever pushes). */
  predicate OnlyKeys(d: Data) {
    forall i :: 0 <= i < |d.inventory| ==> d.inventory[i] == KeyTag
  }

  /** `new Data()`. */
  function Initial(): (d: Data)
    ensures Consistent(d) && OnlyKeys(d) && d.playerItem == 0
  {
    Data(0, [])
  }

  /** `setPlayerItem()`: one more item, and the tag pushed is a key. */
  function SetPlayerItem(d: Data): (r: Data)
    ensures r.playerItem == d.playerItem + 1
    ensures |r.inventory| == |d.inventory| + 1
    ensures r.inventory[..|d.inventory|] == d.inventory && r.inventory[|d.inventory|] == KeyTag
    ensures Consistent(d) ==> Consistent(r)
    ensures OnlyKeys(d) ==> OnlyKeys(r)
  {
    Data(d.playerItem + 1, d.inventory + [KeyTag])
  }

  /** `addKey()`: the same effect as `setPlayerItem()`. */
  function AddKey(d: Data): (r: Data)
    ensures r == SetPlayerItem(d)
  {
    Data(d.playerItem + 1, d.inventory + [KeyTag])
  }

  /** Result of `removePlayerItem`: the new store and the returned flag. */
  datatype Removal = Removal(data: Data, removed: bool)

  /** Whether `removePlayerItem(itemType)` takes out the first `itemType` tag
      (rather than the last tag). The empty string is falsy, so it never selects. */
  predicate SelectsTag(d: Data, itemType: string) {
    itemType != "" && itemType in d.inventory
  }

  /** `removePlayerItem(itemType)`: refused when the count is zero; otherwise the
      count drops by one and the first `itemType` tag is removed, or the last tag
      when there is no such tag. */
  function RemovePlayerItem(d: Data, itemType: string): (r: Removal)
    ensures r.removed <==> d.playerItem > 0
    ensures !r.removed ==> r.data == d
    ensures r.removed ==> r.data.playerItem == d.playerItem - 1
    ensures r.removed && SelectsTag(d, itemType) ==>
              r.data.inventory == Seqs.RemoveFirst(d.inventory, itemType)
    ensures r.removed && !SelectsTag(d, itemType) ==>
              r.data.inventory == Seqs.DropLast(d.inventory)
    ensures Consistent(d) ==> Consistent(r.data)
    ensures OnlyKeys(d) ==> OnlyKeys(r.data)
  {
    if d.playerItem > 0 then
      var inv := if SelectsTag(d, itemType) then Seqs.RemoveFirst(d.inventory, itemType)
                 else Seqs.DropLast(d.inventory);
      Removal(Data(d.playerItem - 1, inv), true)
    else
      Removal(d, false)
  }

  /** `hasItem(itemType)`: some tag equals `itemType`. */
  function HasItem(d: Data, itemType: string): (b: bool)
    ensures b <==> exists i :: 0 <= i < |d.inventory| && d.inventory[i] == itemType
  {
    itemType in d.inventory
  }

  /** On a consistent store holding only keys, the two guards the key slot
      checks (`getPlayerItem() > 0` and `hasItem("key")`) agree. */
  lemma HeldCountIffHasKey(d: Data)
    requires Consistent(d) && OnlyKeys(d)
    ensures d.playerItem > 0 <==> HasItem(d, KeyTag)
  {
    if d.playerItem > 0 {
      assert d.inventory[0] == KeyTag;
    }
  }

  /** Removing a key right after adding one restores the store exactly, on a
      consistent store holding only keys (the first key is removed, but all keys
      are alike). */
  lemma {:induction false} RemoveUndoesAdd(d: Data)
    requires Consistent(d) && OnlyKeys(d)
    ensures RemovePlayerItem(SetPlayerItem(d), KeyTag) == Removal(d, true)
  {
    var a := SetPlayerItem(d);
    assert KeyTag in a.inventory by { assert a.inventory[|d.inventory|] == KeyTag; }
    var i := Seqs.IndexOf(a.inventory, KeyTag);
    if |d.inventory| == 0 {
      assert i == 0;
    } else {
      assert a.inventory[0] == KeyTag;
      assert i == 0;
      assert a.inventory[1..] == d.inventory[1..] + [KeyTag];
      assert d.inventory == d.inventory[1..] + [KeyTag] by {
        forall k | 0 <= k < |d.inventory|
          ensures d.inventory[k] == (d.inventory[1..] + [KeyTag])[k]
        {
        }
      }
    }
  }

  /** With a tag that does not select anything, removal pops the tag that the
      preceding add pushed, whatever the store held. */
  lemma PopUndoesAdd(d: Data, itemType: string)
    requires !SelectsTag(SetPlayerItem(d), itemType)
    ensures RemovePlayerItem(SetPlayerItem(d), itemType) == Removal(d, true)
  {
    assert (d.inventory + [KeyTag])[..|d.inventory|] == d.inventory;
  }
}
