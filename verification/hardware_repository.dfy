/** The session-backed hardware repository (src/Repositories/HardwareRepository.php):
    an id-keyed, insertion-ordered array of items, the next id to hand out, and the
    `$_SESSION` snapshot every write refreshes. The session is an ordinary field of the
    state record, so each operation says what it leaves in it. */
module HardwareRepository {
  import opened Wrappers
  import opened PhpArray
  import opened HardwareModel

  /** The two session keys the repository uses, each possibly unset. */
  datatype Session = Session(items: Option<seq<Entry<Hardware>>>, nextId: Option<int>)

  datatype Repo = Repo(items: seq<Entry<Hardware>>, nextId: int, session: Session)

  /** The snapshot in the session is the live state. */
  predicate Synced(r: Repo) {
    r.session == Session(Some(r.items), Some(r.nextId))
  }

  /** Keys are distinct and below `nextId`, `nextId` is positive, and every item is
      stored under its own id. */
  predicate Valid(r: Repo) {
    && DistinctKeys(r.items)
    && r.nextId >= 1
    && (forall i :: 0 <= i < |r.items| ==> r.items[i].key < r.nextId)
    && (forall i :: 0 <= i < |r.items| ==> r.items[i].value.id == Some(r.items[i].key))
  }

  /** `saveToSession`: writes both keys. */
  function SaveToSession(r: Repo): (r': Repo)
    ensures Synced(r') && r'.items == r.items && r'.nextId == r.nextId
  {
    r.(session := Session(Some(r.items), Some(r.nextId)))
  }

  /** The result of `save`: the repository afterwards and the item as the caller now
      sees it (PHP objects are shared, so `setId` is visible to the caller). */
  datatype Saved = Saved(repo: Repo, item: Hardware)

  /** `save`: an item without an id takes `nextId`, which then advances by one; the
      item is stored under its id (in place when the id is already present, at the end
      otherwise) and the session is rewritten. */
  function Save(r: Repo, item: Hardware): (s: Saved)
    ensures item.id.None? ==> s.item == SetId(item, r.nextId) && s.repo.nextId == r.nextId + 1
    ensures item.id.Some? ==> s.item == item && s.repo.nextId == r.nextId
    ensures s.item.id.Some? && FindById(s.repo, s.item.id.value) == Some(s.item)
    ensures forall k :: s.item.id != Some(k) ==> FindById(s.repo, k) == FindById(r, k)
    ensures s.item.id.value in Keys(r.items) ==> Keys(s.repo.items) == Keys(r.items)
    ensures s.item.id.value !in Keys(r.items) ==> s.repo.items == r.items + [Entry(s.item.id.value, s.item)]
    ensures Synced(s.repo)
  {
    var stored := if item.id.None? then SetId(item, r.nextId) else item;
    var next := if item.id.None? then r.nextId + 1 else r.nextId;
    var items := Put(r.items, stored.id.value, stored);
    Saved(SaveToSession(Repo(items, next, r.session)), stored)
  }

  /** `findAll`: the items in insertion order. */
  function FindAll(r: Repo): (all: seq<Hardware>)
    ensures |all| == |r.items|
    ensures forall i :: 0 <= i < |all| ==> all[i] == r.items[i].value
  {
    Values(r.items)
  }

  /** `findById`: the item stored under `id`, or null. */
  function FindById(r: Repo, id: int): (res: Option<Hardware>)
    ensures res.None? <==> id !in Keys(r.items)
    ensures res.Some? ==> Entry(id, res.value) in r.items
  {
    Get(r.items, id)
  }

  /** `delete`: drops the entry under `id` (if any), keeps every other entry in order,
      leaves `nextId` alone and rewrites the session. */
  function Delete(r: Repo, id: int): (r': Repo)
    ensures FindById(r', id) == None
    ensures forall i :: 0 <= i < |r.items| && r.items[i].key != id ==> r.items[i] in r'.items
    ensures forall i :: 0 <= i < |r'.items| ==> r'.items[i] in r.items
    ensures id !in Keys(r.items) ==> r'.items == r.items
    ensures DistinctKeys(r.items) && id in Keys(r.items) ==>
      exists i :: 0 <= i < |r.items| && r.items[i].key == id && r'.items == r.items[..i] + r.items[i + 1..]
    ensures forall k :: k != id ==> FindById(r', k) == FindById(r, k)
    ensures r'.nextId == r.nextId && Synced(r')
  {
    RemoveKeeps(r.items, id);
    RemoveGet(r.items, id);
    SaveToSession(r.(items := Remove(r.items, id)))
  }

  // ---------------------------------------------------------------- validity

  /** Saving a new item, or an item whose id was handed out before, keeps the store valid. */
  lemma SavePreservesValid(r: Repo, item: Hardware)
    requires Valid(r)
    requires item.id.Some? ==> item.id.value < r.nextId
    ensures Valid(Save(r, item).repo)
  {
    var s := Save(r, item);
    var k := s.item.id.value;
    if k in Keys(r.items) {
      forall i | 0 <= i < |s.repo.items|
        ensures s.repo.items[i].key < s.repo.nextId
        ensures s.repo.items[i].value.id == Some(s.repo.items[i].key)
      {
        assert s.repo.items[i].key == r.items[i].key;
        if r.items[i].key == k {
          GetStored(s.repo.items, i);
        } else {
          GetStored(s.repo.items, i);
          GetStored(r.items, i);
        }
      }
    }
  }

  /** Deleting keeps the store valid. */
  lemma DeletePreservesValid(r: Repo, id: int)
    requires Valid(r)
    ensures Valid(Delete(r, id))
  {
    RemoveDistinct(r.items, id);
  }

  /** A new item's id is free: no stored item has it, and the store grows by one. */
  lemma NewIdIsFresh(r: Repo, item: Hardware)
    requires Valid(r) && item.id.None?
    ensures r.nextId !in Keys(r.items)
    ensures |Save(r, item).repo.items| == |r.items| + 1
  {
  }

  // ---------------------------------------------------------------- traces

  datatype Op = SaveOp(item: Hardware) | DeleteOp(id: int)

  function Step(r: Repo, op: Op): Repo {
    match op
    case SaveOp(item) => Save(r, item).repo
    case DeleteOp(id) => Delete(r, id)
  }

  /** Runs the operations in order. */
  function Run(r: Repo, ops: seq<Op>): Repo
    decreases |ops|
  {
    if |ops| == 0 then r else Run(Step(r, ops[0]), ops[1..])
  }

  /** The ids `save` hands out to new items along a run, in order. */
  function AutoIds(r: Repo, ops: seq<Op>): seq<int>
    decreases |ops|
  {
    if |ops| == 0 then []
    else
      var handed := if ops[0].SaveOp? && ops[0].item.id.None? then [r.nextId] else [];
      handed + AutoIds(Step(r, ops[0]), ops[1..])
  }

  /** An operation a caller may issue: a delete, a new item, or an item whose id was
      handed out before. */
  predicate Allowed(r: Repo, op: Op) {
    op.SaveOp? && op.item.id.Some? ==> op.item.id.value < r.nextId
  }

  predicate AllAllowed(r: Repo, ops: seq<Op>)
    decreases |ops|
  {
    |ops| == 0 || (Allowed(r, ops[0]) && AllAllowed(Step(r, ops[0]), ops[1..]))
  }

  /** Along any run, `nextId` never decreases and the ids handed out are strictly
      increasing, at least the starting `nextId` and below the final one, so no id is
      ever handed out twice, even after its item was deleted. */
  lemma {:induction false} AutoIdsIncrease(r: Repo, ops: seq<Op>)
    ensures Run(r, ops).nextId >= r.nextId
    ensures forall i :: 0 <= i < |AutoIds(r, ops)| ==> r.nextId <= AutoIds(r, ops)[i] < Run(r, ops).nextId
    ensures forall i, j :: 0 <= i < j < |AutoIds(r, ops)| ==> AutoIds(r, ops)[i] < AutoIds(r, ops)[j]
    decreases |ops|
  {
    if |ops| > 0 {
      var r1 := Step(r, ops[0]);
      AutoIdsIncrease(r1, ops[1..]);
      assert r1.nextId >= r.nextId;
      var handed := if ops[0].SaveOp? && ops[0].item.id.None? then [r.nextId] else [];
      assert handed != [] ==> r1.nextId == r.nextId + 1;
    }
  }

  /** Along any run of allowed operations from a valid store, the store stays valid. */
  lemma {:induction false} RunPreservesValid(r: Repo, ops: seq<Op>)
    requires Valid(r) && AllAllowed(r, ops)
    ensures Valid(Run(r, ops))
    decreases |ops|
  {
    if |ops| > 0 {
      match ops[0] {
        case SaveOp(item) => SavePreservesValid(r, item);
        case DeleteOp(id) => DeletePreservesValid(r, id);
      }
      RunPreservesValid(Step(r, ops[0]), ops[1..]);
    }
  }

  /** From a valid store, every id a run hands out is new: no item stored at the start
      carries it. */
  lemma AutoIdsAreNew(r: Repo, ops: seq<Op>)
    requires Valid(r)
    ensures forall i, k :: 0 <= i < |AutoIds(r, ops)| && 0 <= k < |r.items| ==> AutoIds(r, ops)[i] != r.items[k].key
  {
    AutoIdsIncrease(r, ops);
  }

  /** After any write the session holds exactly the live state. */
  lemma {:induction false} RunSynced(r: Repo, ops: seq<Op>)
    requires |ops| > 0
    ensures Synced(Run(r, ops))
    decreases |ops|
  {
    if |ops| > 1 {
      RunSynced(Step(r, ops[0]), ops[1..]);
    }
  }

  /** What one operation did to one key: stored an item under it, or dropped it. */
  datatype Effect = Stored(key: int) | Dropped(key: int)

  /** The effect of each operation of a run, in order; a save's key is the id it used. */
  function Effects(r: Repo, ops: seq<Op>): seq<Effect>
    decreases |ops|
  {
    if |ops| == 0 then []
    else
      var e := match ops[0]
        case SaveOp(item) => Stored(item.id.GetOr(r.nextId))
        case DeleteOp(id) => Dropped(id);
      [e] + Effects(Step(r, ops[0]), ops[1..])
  }

  /** The last effect on `k`, if any: `Some(true)` when it was a store. */
  function LastEffect(effs: seq<Effect>, k: int): Option<bool>
    decreases |effs|
  {
    if |effs| == 0 then None
    else if effs[|effs| - 1].key == k then Some(effs[|effs| - 1].Stored?)
    else LastEffect(effs[..|effs| - 1], k)
  }

  lemma {:induction false} LastEffectCons(e: Effect, effs: seq<Effect>, k: int)
    ensures LastEffect([e] + effs, k)
         == if LastEffect(effs, k).Some? then LastEffect(effs, k)
            else if e.key == k then Some(e.Stored?) else None
    decreases |effs|
  {
    var all := [e] + effs;
    if |effs| > 0 {
      assert all[..|all| - 1] == [e] + effs[..|effs| - 1];
      LastEffectCons(e, effs[..|effs| - 1], k);
    }
  }

  /** A key is live after a run when the last operation touching it stored it, or, if
      none touched it, when it was there at the start. */
  predicate LiveKey(initial: seq<int>, effs: seq<Effect>, k: int) {
    match LastEffect(effs, k)
    case None => k in initial
    case Some(stored) => stored
  }

  /** `findAll` after a run lists exactly the live keys: those saved and not deleted
      since, and the untouched starting ones. */
  lemma {:induction false} RunLiveKeys(r: Repo, ops: seq<Op>, k: int)
    ensures k in Keys(Run(r, ops).items) <==> LiveKey(Keys(r.items), Effects(r, ops), k)
    decreases |ops|
  {
    if |ops| > 0 {
      var r1 := Step(r, ops[0]);
      var effs := Effects(r, ops);
      RunLiveKeys(r1, ops[1..], k);
      LastEffectCons(effs[0], Effects(r1, ops[1..]), k);
      assert effs == [effs[0]] + Effects(r1, ops[1..]);
      if effs[0].key != k {
        match ops[0] {
          case SaveOp(item) =>
            assert (Get(r1.items, k) == None) == (Get(r.items, k) == None);
          case DeleteOp(id) =>
            DeleteKeepsOtherKeys(r, id, k);
        }
      }
    }
  }

  lemma DeleteKeepsOtherKeys(r: Repo, id: int, k: int)
    requires k != id
    ensures k in Keys(Delete(r, id).items) <==> k in Keys(r.items)
  {
    if k in Keys(r.items) {
      DeleteKeepsKey(r, id, k);
    }
    if k in Keys(Delete(r, id).items) {
      DeleteAddsNoKey(r, id, k);
    }
  }

  lemma DeleteKeepsKey(r: Repo, id: int, k: int)
    requires k != id && k in Keys(r.items)
    ensures k in Keys(Delete(r, id).items)
  {
    var i :| 0 <= i < |r.items| && Keys(r.items)[i] == k;
    assert r.items[i] in Delete(r, id).items;
    KeyOfMember(Delete(r, id).items, r.items[i]);
  }

  lemma DeleteAddsNoKey(r: Repo, id: int, k: int)
    requires k in Keys(Delete(r, id).items)
    ensures k in Keys(r.items)
  {
    var items' := Delete(r, id).items;
    var j :| 0 <= j < |items'| && Keys(items')[j] == k;
    assert items'[j] in r.items;
    KeyOfMember(r.items, items'[j]);
  }

  // ---------------------------------------------------------------- construction

  /** The four fixture items, in the order they are saved. */
  const SeedItems: seq<Hardware> := [
    Procesador(None, "AMD", "Ryzen 5 5600X", 199.99, 15, "Procesadores", 6, "4.6GHz"),
    Procesador(None, "Intel", "Core i7-13700K", 409.99, 2, "Procesadores", 16, "5.4GHz"),
    TarjetaGrafica(None, "NVIDIA", "GeForce RTX 4070", 599.99, 8, "Tarjetas Gráficas", "12GB GDDR6X"),
    TarjetaGrafica(None, "AMD", "Radeon RX 7600", 269.99, 1, "Tarjetas Gráficas", "8GB GDDR6")
  ]

  /** `seedData`: saves each item in turn. */
  function SeedFrom(items: seq<Hardware>, r: Repo): Repo
    decreases |items|
  {
    if |items| == 0 then r else SeedFrom(items[1..], Save(r, items[0]).repo)
  }

  /** The constructor with `loadFromSession`: a stored item array is restored together
      with the stored `nextId` (1 when unset); otherwise the fixtures are saved into an
      empty store and the session is written. */
  function Construct(session: Session): (r: Repo)
    ensures session.items.Some? ==> r.items == session.items.value && r.nextId == session.nextId.GetOr(1)
    ensures session.items.Some? ==> r.session == session
    ensures session.items.None? ==> Synced(r)
  {
    if session.items.Some? then Repo(session.items.value, session.nextId.GetOr(1), session)
    else SaveToSession(SeedFrom(SeedItems, Repo([], 1, session)))
  }

  /** Reconstructing from the snapshot a repository left behind gives that repository
      back: the session round-trips the state. */
  lemma RestoreRoundTrip(r: Repo)
    requires Synced(r)
    ensures Construct(r.session) == r
  {
  }

  /** The store holds `all` in order, item `k` under id `k + 1` with that id set, and
      `nextId` is one past the last. */
  predicate Shaped(r: Repo, all: seq<Hardware>) {
    && |r.items| == |all| && r.nextId == |all| + 1
    && forall k :: 0 <= k < |all| ==> r.items[k] == Entry(k + 1, SetId(all[k], k + 1))
  }

  /** Saving new items one at a time into a store shaped like `done` gives a store
      shaped like `done` followed by the items: item `k` of the whole run lands at
      position `k` under id `k + 1`. */
  lemma {:induction false} SeedFromShape(items: seq<Hardware>, done: seq<Hardware>, r: Repo)
    requires forall k :: 0 <= k < |items| ==> items[k].id.None?
    requires Shaped(r, done)
    ensures Shaped(SeedFrom(items, r), done + items)
    decreases |items|
  {
    if |items| > 0 {
      SeedStep(items[0], done, r);
      var r1 := Save(r, items[0]).repo;
      var done1 := done + [items[0]];
      assert forall k :: 0 <= k < |items[1..]| ==> items[1..][k].id.None?;
      SeedFromShape(items[1..], done1, r1);
      MoveFirst(done, items);
    } else {
      assert done + items == done;
    }
  }

  lemma MoveFirst<T>(done: seq<T>, items: seq<T>)
    requires |items| > 0
    ensures (done + [items[0]]) + items[1..] == done + items
  {
    assert items == [items[0]] + items[1..];
  }

  /** Saving one new item into a store shaped like `done` gives one shaped like `done`
      followed by that item. */
  lemma SeedStep(item: Hardware, done: seq<Hardware>, r: Repo)
    requires item.id.None? && Shaped(r, done)
    ensures Shaped(Save(r, item).repo, done + [item])
  {
    assert r.nextId !in Keys(r.items) by {
      forall i | 0 <= i < |r.items| ensures Keys(r.items)[i] != r.nextId {
        assert r.items[i].key == i + 1;
      }
    }
    var s := Save(r, item);
    assert s.repo.items == r.items + [Entry(r.nextId, SetId(item, r.nextId))];
    ShapedAppend(r, done, item, s.repo);
  }

  lemma ShapedAppend(r: Repo, done: seq<Hardware>, item: Hardware, r': Repo)
    requires Shaped(r, done)
    requires r'.items == r.items + [Entry(r.nextId, SetId(item, r.nextId))]
    requires r'.nextId == r.nextId + 1
    ensures Shaped(r', done + [item])
  {
    var done1 := done + [item];
    forall k | 0 <= k < |done1|
      ensures r'.items[k] == Entry(k + 1, SetId(done1[k], k + 1))
    {
      if k < |done| {
        assert r'.items[k] == r.items[k] && done1[k] == done[k];
      } else {
        assert done1[k] == item;
      }
    }
  }

  /** The shape of a freshly seeded store, stated without unfolding the constructor. */
  predicate Seeded(r: Repo) {
    && |r.items| == 4 && r.nextId == 5
    && forall k :: 0 <= k < 4 ==> r.items[k] == Entry(k + 1, SetId(SeedItems[k], k + 1))
  }

  /** Without a snapshot the constructor yields the seeded store, synced to the session. */
  lemma ConstructSeeds(session: Session)
    requires session.items.None?
    ensures Seeded(Construct(session)) && Synced(Construct(session))
  {
    SeedFromShape(SeedItems, [], Repo([], 1, session));
    assert [] + SeedItems == SeedItems;
  }

  /** A seeded store holds ids 1..4 with `nextId` 5, is valid, and exactly items 2 and 4
      (stock 2 and 1) are at critical stock. */
  lemma SeededFacts(r: Repo)
    requires Seeded(r)
    ensures Valid(r)
    ensures Keys(r.items) == [1, 2, 3, 4]
    ensures forall k :: 0 <= k < 4 ==> (EsStockCritico(r.items[k].value) <==> r.items[k].key in {2, 4})
  {
    assert Keys(r.items) == [1, 2, 3, 4];
  }
}
