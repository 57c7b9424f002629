/** The NPC key exchange (Npc.js). Pressing `q` while a player touches an NPC
    hands it one key from the shared store, up to two per NPC; each NPC's count
    is saved under its id; the game ends once at least four NPCs hold two keys
    each. An NPC's count lives in its registry entry because the end-of-game
    check reads every NPC through the registry. */
module NpcKeys {
  import opened Optional
  import opened Registry
  import Progress
  import Collision
  import Seqs

  const MaxKeys: int := 2
  const MinNpcs: nat := 4
  const GiveKey: string := "q"

  /** Which branch of `giveKeyToNpc` ran (the message shown). */
  datatype Outcome = Given | NoKeys | AlreadyFull

  datatype Gift = Gift(keysReceived: int, data: Progress.Data, outcome: Outcome)

  /** `giveKeyToNpc()`: with a key held and fewer than two received, the NPC
      gains one key and the store loses one; otherwise nothing changes. */
  function GiveKeyToNpc(keys: int, d: Progress.Data): (g: Gift)
    ensures g.outcome == Given <==> d.playerItem > 0 && keys < MaxKeys
    ensures g.outcome == NoKeys <==> d.playerItem == 0
    ensures g.outcome == AlreadyFull <==> d.playerItem > 0 && keys >= MaxKeys
    ensures g.outcome == Given ==>
              g.keysReceived == keys + 1 && g.data == Progress.RemovePlayerItem(d, Progress.KeyTag).data
    ensures g.outcome != Given ==> g.keysReceived == keys && g.data == d
    ensures keys <= MaxKeys ==> g.keysReceived <= MaxKeys
    ensures g.keysReceived + g.data.playerItem == keys + d.playerItem
    ensures Progress.Consistent(d) ==> Progress.Consistent(g.data)
  {
    if d.playerItem > 0 && keys < MaxKeys then
      Gift(keys + 1, Progress.RemovePlayerItem(d, Progress.KeyTag).data, Given)
    else if d.playerItem <= 0 then Gift(keys, d, NoKeys)
    else Gift(keys, d, AlreadyFull)
  }

  /** `saveNpcKeyState()`: the stored map gets this NPC's count under its id. */
  function SaveNpcKeyState(store: map<string, int>, npcId: string, keys: int): (r: map<string, int>)
    ensures npcId in r && r[npcId] == keys
    ensures forall id :: id != npcId ==> (id in r <==> id in store)
    ensures forall id :: id != npcId && id in store ==> r[id] == store[id]
  {
    store[npcId := keys]
  }

  /** `loadNpcKeyState()`: the stored count for this id, or the prior count when
      the id has no entry. */
  function LoadNpcKeyState(store: map<string, int>, npcId: string, prior: int): (k: int)
    ensures npcId in store ==> k == store[npcId]
    ensures npcId !in store ==> k == prior
  {
    if npcId in store then store[npcId] else prior
  }

  /** Saving then loading the same id gives back the saved count; other ids
      load what they loaded before. */
  lemma SaveLoadRoundTrip(store: map<string, int>, npcId: string, keys: int, other: string, prior: int)
    ensures LoadNpcKeyState(SaveNpcKeyState(store, npcId, keys), npcId, prior) == keys
    ensures other != npcId ==>
              LoadNpcKeyState(SaveNpcKeyState(store, npcId, keys), other, prior) == LoadNpcKeyState(store, other, prior)
  {
  }

  /** Number of NPCs in the registry. */
  function NpcCount(reg: seq<GameObj>): (n: nat)
    ensures n <= |reg|
  {
    if |reg| == 0 then 0 else (if reg[0].kind.Npc? then 1 else 0) + NpcCount(reg[1..])
  }

  /** `allNpcs.every(npc => npc.keysReceived >= 2)`. */
  function EveryNpcFull(reg: seq<GameObj>): (b: bool)
    ensures b <==> forall k :: 0 <= k < |reg| && reg[k].kind.Npc? ==> reg[k].kind.keysReceived >= MaxKeys
  {
    if |reg| == 0 then true
    else
      assert forall k :: 1 <= k < |reg| ==> reg[k] == reg[1..][k - 1];
      (!reg[0].kind.Npc? || reg[0].kind.keysReceived >= MaxKeys) && EveryNpcFull(reg[1..])
  }

  /** `checkGameEnd()`: every NPC holds two keys and there are at least four NPCs. */
  function CheckGameEnd(reg: seq<GameObj>): (b: bool)
    ensures b <==> (forall k :: 0 <= k < |reg| && reg[k].kind.Npc? ==> reg[k].kind.keysReceived >= MaxKeys)
                   && NpcCount(reg) >= MinNpcs
  {
    EveryNpcFull(reg) && NpcCount(reg) >= MinNpcs
  }

  /** With fewer than four NPCs, however many keys they hold, the game never
      ends this way. */
  lemma FewNpcsNeverEnd(reg: seq<GameObj>)
    requires NpcCount(reg) < MinNpcs
    ensures !CheckGameEnd(reg)
  {
  }

  /** One NPC short of two keys keeps the game going. */
  lemma OneShortNeverEnds(reg: seq<GameObj>, k: nat)
    requires k < |reg| && reg[k].kind.Npc? && reg[k].kind.keysReceived < MaxKeys
    ensures !CheckGameEnd(reg)
  {
  }

  /** Some id in the NPC's collision list is a player's. */
  predicate TouchedByPlayer(events: seq<string>) {
    exists i :: 0 <= i < |events| && IsPlayerId(events[i])
  }

  /** State the NPC key presses read and write. */
  datatype World = World(registry: seq<GameObj>, data: Progress.Data, keyStates: map<string, int>)

  /** A press's new world, the branch taken (when `giveKeyToNpc` ran), and
      whether `endGame` was called. */
  datatype Turn = Turn(world: World, gave: Option<Outcome>, ended: bool)

  predicate IsNpcIn(reg: seq<GameObj>, uid: nat) {
    var o := Find(reg, uid);
    o.Some? && o.value.kind.Npc?
  }

  /** `handleKeyDown` on `q`: when a player is in this NPC's collision list, give
      a key; after a successful give, save the NPC's count and check for the end
      of the game. Other keys change no state here. */
  function HandleKeyDown(w: World, uid: nat, key: string): (t: Turn)
    ensures key == GiveKey && IsNpcIn(w.registry, uid)
            && TouchedByPlayer(Find(w.registry, uid).value.collisionEvents)
            && w.data.playerItem > 0 && Find(w.registry, uid).value.kind.keysReceived < MaxKeys
            ==> t.gave == Some(Given)
    ensures t.gave == Some(Given) ==>
              key == GiveKey && IsNpcIn(w.registry, uid) && TouchedByPlayer(Find(w.registry, uid).value.collisionEvents)
    ensures t.ended <==> t.gave == Some(Given) && CheckGameEnd(t.world.registry)
    ensures t.gave != Some(Given) ==> t.world == w
    ensures key != GiveKey ==> t == Turn(w, None, false)
    ensures |t.world.registry| == |w.registry|
    ensures Progress.Consistent(w.data) ==> Progress.Consistent(t.world.data)
  {
    if key == GiveKey && IsNpcIn(w.registry, uid) && TouchedByPlayer(Find(w.registry, uid).value.collisionEvents) then
      var me := Find(w.registry, uid).value;
      var g := GiveKeyToNpc(me.kind.keysReceived, w.data);
      if g.outcome == Given then
        var reg := Put(w.registry, me.(kind := Npc(g.keysReceived)));
        var store := SaveNpcKeyState(w.keyStates, me.id, g.keysReceived);
        Turn(World(reg, g.data, store), Some(Given), CheckGameEnd(reg))
      else Turn(w, Some(g.outcome), false)
    else Turn(w, None, false)
  }

  /** Keys held by NPCs in the registry. */
  function NpcKeys(o: GameObj): int {
    if o.kind.Npc? then o.kind.keysReceived else 0
  }

  function SumNpcKeys(reg: seq<GameObj>): int {
    if |reg| == 0 then 0 else NpcKeys(reg[0]) + SumNpcKeys(reg[1..])
  }

  lemma {:induction false} SumAfterUpdate(reg: seq<GameObj>, i: nat, o: GameObj)
    requires i < |reg|
    ensures SumNpcKeys(reg[i := o]) == SumNpcKeys(reg) - NpcKeys(reg[i]) + NpcKeys(o)
    decreases i
  {
    if i > 0 {
      SumAfterUpdate(reg[1..], i - 1, o);
      assert reg[i := o][1..] == reg[1..][i - 1 := o];
    }
  }

  /** Keys are only ever moved: what the player holds plus what all NPCs hold is
      the same before and after any press. */
  lemma PressConservesKeys(w: World, uid: nat, key: string)
    ensures var t := HandleKeyDown(w, uid, key);
            t.world.data.playerItem + SumNpcKeys(t.world.registry) == w.data.playerItem + SumNpcKeys(w.registry)
  {
    var t := HandleKeyDown(w, uid, key);
    if t.gave == Some(Given) {
      var i := GiveUpdatesOneEntry(w, uid, key);
      var me := w.registry[i];
      var o := me.(kind := Npc(me.kind.keysReceived + 1));
      SumAfterUpdate(w.registry, i, o);
      assert NpcKeys(o) == NpcKeys(me) + 1;
      assert SumNpcKeys(t.world.registry) == SumNpcKeys(w.registry) + 1;
    } else {
      assert t.world == w;
    }
  }

  /** A successful give rewrites exactly the NPC's own entry, one key higher,
      takes one item from the store, and saves the new count under the NPC's id. */
  lemma GiveUpdatesOneEntry(w: World, uid: nat, key: string) returns (i: nat)
    requires HandleKeyDown(w, uid, key).gave == Some(Given)
    ensures var t := HandleKeyDown(w, uid, key);
            && i == IndexOf(w.registry, uid) && i < |w.registry| && w.registry[i].kind.Npc?
            && w.registry[i].kind.keysReceived < MaxKeys
            && t.world.registry == w.registry[i := w.registry[i].(kind := Npc(w.registry[i].kind.keysReceived + 1))]
            && t.world.data.playerItem == w.data.playerItem - 1
            && t.world.keyStates == w.keyStates[w.registry[i].id := w.registry[i].kind.keysReceived + 1]
  {
    i := IndexOf(w.registry, uid);
  }

  /** Every NPC holding at most two keys. */
  predicate KeysBounded(reg: seq<GameObj>) {
    forall k :: 0 <= k < |reg| && reg[k].kind.Npc? ==> reg[k].kind.keysReceived <= MaxKeys
  }

  /** No press pushes an NPC past two keys, and a successful one saves exactly
      the NPC's new count under its id. */
  lemma PressKeepsKeysBounded(w: World, uid: nat, key: string)
    requires KeysBounded(w.registry)
    ensures KeysBounded(HandleKeyDown(w, uid, key).world.registry)
    ensures var t := HandleKeyDown(w, uid, key);
            t.gave == Some(Given) ==>
              var me := Find(w.registry, uid).value;
              var me2 := Find(t.world.registry, uid).value;
              me2.kind == Npc(me.kind.keysReceived + 1)
              && LoadNpcKeyState(t.world.keyStates, me.id, 0) == me.kind.keysReceived + 1
  {
    if HandleKeyDown(w, uid, key).gave == Some(Given) {
      var i := GiveUpdatesOneEntry(w, uid, key);
    }
  }

  /** `update()`: the per-frame collision pass refreshes this NPC's collision list
      and nothing else: its own entry gets the result of `collisionChecks`, every
      other entry is kept. */
  function Update(w: World, uid: nat): (r: World)
    ensures r.data == w.data && r.keyStates == w.keyStates
    ensures |r.registry| == |w.registry|
    ensures var i := IndexOf(w.registry, uid);
            0 <= i ==> r.registry[i] == w.registry[i].(collisionEvents := Collision.Checks(w.registry[i], w.registry))
    ensures forall k :: 0 <= k < |w.registry| && k != IndexOf(w.registry, uid) ==> r.registry[k] == w.registry[k]
  {
    match Find(w.registry, uid)
    case None => w
    case Some(me) =>
      w.(registry := Put(w.registry, me.(collisionEvents := Collision.Checks(me, w.registry))))
  }

  /** A frame keeps the NPC's collision list free of repeats, empties it when
      nothing is hit, and otherwise only extends it by the ids hit. */
  lemma UpdateKeepsEventsDistinct(w: World, uid: nat)
    requires 0 <= IndexOf(w.registry, uid)
    requires Seqs.NoDups(w.registry[IndexOf(w.registry, uid)].collisionEvents)
    ensures var i := IndexOf(w.registry, uid);
            var before := w.registry[i].collisionEvents;
            var after := Update(w, uid).registry[i].collisionEvents;
            && Seqs.NoDups(after)
            && ((forall k :: 0 <= k < |w.registry| ==> !Collision.HitBy(w.registry[i], w.registry[k])) ==> after == [])
            && ((exists k :: 0 <= k < |w.registry| && Collision.HitBy(w.registry[i], w.registry[k])) ==>
                  |before| <= |after| && after[..|before|] == before)
  {
    var i := IndexOf(w.registry, uid);
    Collision.ChecksProperties(w.registry[i], w.registry);
  }
}
