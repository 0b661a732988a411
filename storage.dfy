/** The browser's `localStorage`, seen as a map from key to string, and the
    way the preference stores read a list of ids out of it. */
module Storage {
  import opened Wrappers
  import JsonList

  class LocalStorage {
    var items: map<string, string>

    constructor (initial: map<string, string>)
      ensures items == initial
    {
      items := initial;
    }

    /** `localStorage.getItem(key)`; `None` is `null`. */
    function GetItem(key: string): (r: Option<string>)
      reads this
      ensures r.Some? <==> key in items
      ensures r.Some? ==> r.value == items[key]
    {
      if key in items then Some(items[key]) else None
    }

    /** `localStorage.setItem(key, value)`. */
    method SetItem(key: string, value: string)
      modifies this
      ensures items == old(items)[key := value]
    {
      items := items[key := value];
    }
  }

  /** `try { return JSON.parse(localStorage.getItem(key) ?? '[]') } catch { return [] }`:
      a missing record reads as `'[]'`, an unparseable one as the empty list. */
  function ReadList(items: map<string, string>, key: string): (r: seq<string>)
    ensures key !in items ==> r == []
    ensures key in items && JsonList.Parse(items[key]).None? ==> r == []
  {
    var raw := if key in items then items[key] else "[]";
    match JsonList.Parse(raw)
    case Some(ids) => ids
    case None => []
  }

  /** A list written with `JSON.stringify` under a key reads back unchanged. */
  lemma ReadWritten(items: map<string, string>, key: string, ids: seq<string>)
    ensures ReadList(items[key := JsonList.Serialize(ids)], key) == ids
  {
    JsonList.ParseSerialize(ids);
  }
}
