/** The inventory list of Inventory.js: at most four item tags, mirrored into
    durable storage (`inventoryItems`) after every change. The in-memory list
    starts empty when the module loads; the stored copy is whatever an earlier
    session left behind. */
module Inventory {
  import opened Optional
  import Seqs

  const Capacity: nat := 4
  const SpoonTag: string := "spoon"

  /** `items` is the module's list; `saved` is the stored record, absent when
      nothing was ever written. */
  datatype Store = Store(items: seq<string>, saved: Option<seq<string>>)

  /** The stored record equals the in-memory list. */
  predicate Synced(s: Store) {
    s.saved == Some(s.items)
  }

  /** A spoon in the list means storage mirrors the list. The list is private to
      this module and both functions that change it write it to storage, so
      this holds from the moment the module loads. */
  predicate SpoonMirrored(s: Store) {
    SpoonTag in s.items ==> Synced(s)
  }

  /** The module's state right after it loads: an empty list, storage untouched. */
  function Load(saved: Option<seq<string>>): (s: Store)
    ensures s.items == [] && s.saved == saved
    ensures SpoonMirrored(s)
  {
    Store([], saved)
  }

  /** `addItemToInventory(itemName)`: appended and saved only while the list
      has fewer than four items; otherwise the list is reported full and nothing changes. */
  function AddItem(s: Store, itemName: string): (r: Store)
    ensures |s.items| < Capacity ==> r.items == s.items + [itemName] && Synced(r)
    ensures |s.items| >= Capacity ==> r == s
    ensures |s.items| <= Capacity ==> |r.items| <= Capacity
    ensures Synced(s) ==> Synced(r)
  {
    if |s.items| < Capacity then
      var items := s.items + [itemName];
      Store(items, Some(items))
    else
      s
  }

  /** `removeItemFromInventory(itemName)`: the first occurrence is removed and
      the list saved; an absent item changes nothing, storage included. */
  function RemoveItem(s: Store, itemName: string): (r: Store)
    ensures itemName in s.items ==> r.items == Seqs.RemoveFirst(s.items, itemName) && Synced(r)
    ensures itemName !in s.items ==> r == s
    ensures |r.items| <= |s.items|
    ensures Synced(s) ==> Synced(r)
  {
    var i := Seqs.IndexOf(s.items, itemName);
    if i > -1 then
      var items := Seqs.RemoveAt(s.items, i);
      Store(items, Some(items))
    else
      s
  }

  /** The document-level keydown handler: `q` or `Q` removes one spoon. */
  function OnKeyDown(s: Store, key: string): (r: Store)
    ensures key == "q" || key == "Q" ==> r == RemoveItem(s, SpoonTag)
    ensures key != "q" && key != "Q" ==> r == s
  {
    if key == "q" || key == "Q" then RemoveItem(s, SpoonTag) else s
  }

  /** A key press removes at most one spoon and never touches any other tag. */
  lemma KeyDownRemovesAtMostOneSpoon(s: Store, key: string)
    ensures var r := OnKeyDown(s, key);
            multiset(r.items)[SpoonTag] + 1 >= multiset(s.items)[SpoonTag]
            && (forall t :: t != SpoonTag ==> multiset(r.items)[t] == multiset(s.items)[t])
            && |r.items| >= |s.items| - 1
  {
    Seqs.RemoveFirstMultiset(s.items, SpoonTag);
  }

  /** A list that starts within capacity stays within capacity under any
      sequence of additions and removals. */
  datatype Op = Add(name: string) | Remove(name: string) | Key(key: string)

  function Apply(s: Store, op: Op): Store {
    match op
    case Add(n) => AddItem(s, n)
    case Remove(n) => RemoveItem(s, n)
    case Key(k) => OnKeyDown(s, k)
  }

  function Run(s: Store, ops: seq<Op>): Store
    decreases |ops|
  {
    if |ops| == 0 then s else Run(Apply(s, ops[0]), ops[1..])
  }

  lemma {:induction false} RunStaysWithinCapacity(s: Store, ops: seq<Op>)
    requires |s.items| <= Capacity
    ensures |Run(s, ops).items| <= Capacity
    decreases |ops|
  {
    if |ops| > 0 {
      RunStaysWithinCapacity(Apply(s, ops[0]), ops[1..]);
    }
  }

  /** Once any operation has written storage, storage keeps matching the list. */
  lemma {:induction false} RunKeepsSynced(s: Store, ops: seq<Op>)
    requires Synced(s)
    ensures Synced(Run(s, ops))
    decreases |ops|
  {
    if |ops| > 0 {
      RunKeepsSynced(Apply(s, ops[0]), ops[1..]);
    }
  }

  /** From load on, whatever storage held before, a listed spoon means storage
      mirrors the list. */
  lemma {:induction false} RunKeepsSpoonMirrored(s: Store, ops: seq<Op>)
    requires SpoonMirrored(s)
    ensures SpoonMirrored(Run(s, ops))
    decreases |ops|
  {
    if |ops| > 0 {
      RunKeepsSpoonMirrored(Apply(s, ops[0]), ops[1..]);
    }
  }
}
