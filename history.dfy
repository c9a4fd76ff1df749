/**
 * The browser's `window.location` and `window.history`, reduced to the two
 * parts of the URL the page reads and writes: the hash fragment (the active
 * page section) and the `person` query parameter (the profile shown).
 */
module BrowserHistory {
  import opened Wrappers

  /**
   * `hash` is what `location.hash` returns: "" or "#" followed by the
   * fragment. `person` is the raw value of the `person` query parameter.
   */
  datatype Location = Location(hash: string, person: Option<string>)

  /**
   * The session history: a list of entries and the index of the current one.
   * `pushState` drops the entries after the current one and appends;
   * `replaceState` overwrites the current entry; back and forward move the
   * index.
   */
  class History {
    var entries: seq<Location>
    var index: nat

    ghost predicate Valid()
      reads this
    {
      index < |entries|
    }

    function Current(): Location
      reads this
      requires Valid()
    {
      entries[index]
    }

    constructor (start: Location)
      ensures Valid()
      ensures entries == [start] && index == 0
    {
      entries := [start];
      index := 0;
    }

    /** `history.pushState(null, "", loc)`. */
    method PushState(loc: Location)
      requires Valid()
      modifies this
      ensures Valid() && Current() == loc
      ensures entries == old(entries[..index + 1]) + [loc] && index == old(index) + 1
    {
      entries := entries[..index + 1] + [loc];
      index := index + 1;
    }

    /** `history.replaceState(null, "", loc)`. */
    method ReplaceState(loc: Location)
      requires Valid()
      modifies this
      ensures Valid() && Current() == loc
      ensures entries == old(entries[index := loc]) && index == old(index)
    {
      entries := entries[index := loc];
    }

    /**
     * The user's back (`delta` < 0) or forward (`delta` > 0) navigation; a
     * move past either end of the list does nothing.
     */
    method Go(delta: int)
      requires Valid()
      modifies this
      ensures Valid() && entries == old(entries)
      ensures index == if 0 <= old(index) + delta < |entries| then old(index) + delta else old(index)
    {
      if 0 <= index + delta < |entries| {
        index := index + delta;
      }
    }
  }
}
