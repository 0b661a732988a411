/** The favourites store: an ordered list of tool ids, capped at eight,
    kept in memory and mirrored to `localStorage` under its own key. */
module Favorites {
  import opened TextUtil
  import JsonList
  import Storage

  const Key := "toolpanda:favorites"
  const MaxFavorites := 8

  /** The initial list: the stored record, or the empty list when it is
      missing or does not parse. */
  function Load(items: map<string, string>): (ids: seq<string>)
    ensures Key !in items ==> ids == []
    ensures Key in items && JsonList.Parse(items[Key]).None? ==> ids == []
  {
    Storage.ReadList(items, Key)
  }

  /** A stored record that is not JSON loads as the empty list. */
  lemma LoadCorrupt(items: map<string, string>)
    requires Key in items && items[Key] == "{not json"
    ensures Load(items) == []
  {
  }

  /** Whether toggling `id` changes the list (and so writes the record):
      always for a present id, and for an absent one only below the cap. */
  predicate Accepts(prev: seq<string>, id: string)
  {
    id in prev || |prev| < MaxFavorites
  }

  /** The list after toggling `id`. */
  function Toggled(prev: seq<string>, id: string): (next: seq<string>)
    ensures id in prev ==> id !in next && multiset(next) == multiset(prev)[id := 0]
    ensures id !in prev && |prev| < MaxFavorites ==> next == prev + [id]
    ensures !Accepts(prev, id) ==> next == prev
    ensures id in next <==> id !in prev && |prev| < MaxFavorites
  {
    if id in prev then RemoveMultiset(prev, id); Remove(prev, id)
    else if |prev| >= MaxFavorites then prev
    else prev + [id]
  }

  class FavoritesStore {
    var ids: seq<string>
    const storage: Storage.LocalStorage

    /** `useState(load)`. */
    constructor (storage: Storage.LocalStorage)
      ensures this.storage == storage
      ensures ids == Load(storage.items)
    {
      this.storage := storage;
      ids := Load(storage.items);
    }

    /** Toggles `id`; a change is written to storage, a rejected add at the
        cap changes nothing and writes nothing. */
    method Toggle(id: string)
      modifies this, storage
      ensures ids == Toggled(old(ids), id)
      ensures Accepts(old(ids), id) ==>
                storage.items == old(storage.items)[Key := JsonList.Serialize(ids)]
      ensures !Accepts(old(ids), id) ==> storage.items == old(storage.items)
      ensures Accepts(old(ids), id) ==> Load(storage.items) == ids
    {
      var prev := ids;
      var next: seq<string>;
      if id in prev {
        next := Remove(prev, id);
      } else {
        if |prev| >= MaxFavorites {
          return;
        }
        next := prev + [id];
      }
      storage.SetItem(Key, JsonList.Serialize(next));
      Storage.ReadWritten(old(storage.items), Key, next);
      ids := next;
    }

    function IsFavorite(id: string): (r: bool)
      reads this
      ensures r <==> exists i :: 0 <= i < |ids| && ids[i] == id
    {
      id in ids
    }

    function AtMax(): (r: bool)
      reads this
      ensures r <==> |ids| >= MaxFavorites
    {
      |ids| >= MaxFavorites
    }
  }

  /** Toggling keeps a list of at most eight distinct ids so. */
  lemma {:induction false} ToggleKeepsInvariant(prev: seq<string>, id: string)
    requires Distinct(prev) && |prev| <= MaxFavorites
    ensures Distinct(Toggled(prev, id)) && |Toggled(prev, id)| <= MaxFavorites
  {
    if id in prev {
      RemovePreservesDistinct(prev, id);
    } else if |prev| < MaxFavorites {
      var next := prev + [id];
      forall i, j | 0 <= i < j < |next| ensures next[i] != next[j] {
        if j == |prev| {
          assert next[i] == prev[i];
        } else {
          assert next[i] == prev[i] && next[j] == prev[j];
        }
      }
    }
  }

  /** The list after a run of toggles. */
  function ToggleAll(prev: seq<string>, ops: seq<string>): seq<string>
    decreases |ops|
  {
    if ops == [] then prev else ToggleAll(Toggled(prev, ops[0]), ops[1..])
  }

  /** From at most eight distinct ids, any run of toggles keeps the list at
      most eight long and free of duplicates. */
  lemma {:induction false} ToggleAllKeepsInvariant(prev: seq<string>, ops: seq<string>)
    requires Distinct(prev) && |prev| <= MaxFavorites
    ensures Distinct(ToggleAll(prev, ops)) && |ToggleAll(prev, ops)| <= MaxFavorites
    decreases |ops|
  {
    if ops != [] {
      ToggleKeepsInvariant(prev, ops[0]);
      ToggleAllKeepsInvariant(Toggled(prev, ops[0]), ops[1..]);
    }
  }

  /** Removing a favourite from a duplicate-free list cuts out its one
      position and keeps the others in order. */
  lemma ToggleRemovesInPlace(prev: seq<string>, i: nat)
    requires Distinct(prev) && i < |prev|
    ensures Toggled(prev, prev[i]) == prev[..i] + prev[i + 1..]
  {
    RemoveDistinct(prev, prev[i], i);
  }

  /** Adding and then removing an id gives back the original list. */
  lemma {:induction false} ToggleTwiceAbsent(prev: seq<string>, id: string)
    requires id !in prev && |prev| < MaxFavorites
    ensures Toggled(Toggled(prev, id), id) == prev
  {
    RemoveAppend(prev, [id], id);
    RemoveAbsent(prev, id);
  }

  /** Removing and then re-adding an id restores membership, with the id
      moved to the end. */
  lemma {:induction false} ToggleTwicePresent(prev: seq<string>, id: string)
    requires id in prev && |prev| <= MaxFavorites
    ensures Toggled(Toggled(prev, id), id) == Remove(prev, id) + [id]
  {
    assert Count(prev, id) > 0;
  }

  /** At the cap, an id that is not yet a favourite is rejected. */
  lemma CapacityRejects(prev: seq<string>, id: string)
    requires |prev| >= MaxFavorites && id !in prev
    ensures Toggled(prev, id) == prev && !Accepts(prev, id)
  {
  }
}
