/** The entry store on its arrays: a cache that grows by reallocation and shrinks by shifting entries
    down, and a fixed table of handler slots. */
module EntryStores {
  import opened Forests
  import opened EntryModel

  /** The size of an entry in bytes: a 4-byte kind, 64 bytes of id, padding, an address and a size. */
  const ENTRY_SIZE: nat := 88

  class EntryStore {
    var cache: array?<StateEntry>
    var cacheSize: nat
    const handlers: array<HandlerSlot>
    var handlerCount: nat
    var log: seq<Notification>

    ghost predicate Shaped()
      reads this
    {
      && cacheSize % ENTRY_SIZE == 0
      && (if cache == null then cacheSize == 0 else cacheSize / ENTRY_SIZE <= cache.Length)
      && handlerCount <= MAX_HANDLERS == handlers.Length
    }

    ghost function Entries(): seq<StateEntry>
      requires Shaped()
      reads this, cache
    {
      if cache == null then [] else cache[..cacheSize / ENTRY_SIZE]
    }

    ghost function Abs(): Store
      requires Shaped()
      reads this, cache, handlers
    {
      Store(Entries(), handlers[..handlerCount], log)
    }

    ghost predicate Valid()
      reads this, cache, handlers
    {
      Shaped() && Sound(Abs())
    }

    constructor ()
      ensures Valid() && cache == null && fresh(handlers)
      ensures Abs() == Store([], [], [])
    {
      cache := null;
      cacheSize := 0;
      handlers := new HandlerSlot[MAX_HANDLERS](_ => HandlerSlot(0, 0));
      handlerCount := 0;
      log := [];
    }

    /** The search loop shared by the operations on entries. */
    method Find(k: Key) returns (i: nat)
      requires Shaped()
      ensures i == IndexOf(Entries(), k)
    {
      i := 0;
      if cache != null {
        var entries := cacheSize / ENTRY_SIZE;
        while i < entries && KeyOf(cache[i]) != k
          invariant i <= entries && forall j :: 0 <= j < i ==> KeyOf(cache[j]) != k
        {
          i := i + 1;
        }
      }
      IndexIs(Entries(), k, i);
    }

    method GetEntry(k: Key) returns (r: Option<StateEntry>)
      requires Valid()
      ensures r.None? <==> k !in EntryMap(Entries())
      ensures r.Some? ==> r.value == EntryMap(Entries())[k]
      ensures r.None? <==> forall i :: 0 <= i < |Entries()| ==> Entries()[i].kind != k.kind || Entries()[i].id != k.id
      ensures r.Some? ==> r.value in Entries() && r.value.kind == k.kind && r.value.id == k.id
    {
      var i := Find(k);
      InEntryMap(Entries(), k);
      if cache == null || i == cacheSize / ENTRY_SIZE {
        return None;
      }
      return Some(cache[i]);
    }

    /** Calls the handlers of the given kind. */
    method Notify(kind: int, id: string)
      requires Shaped()
      modifies this`log
      ensures log == old(log) + Notified(handlers[..handlerCount], kind, id)
    {
      var j := 0;
      while j < handlerCount
        invariant j <= handlerCount
        invariant log == old(log) + Notified(handlers[..j], kind, id)
      {
        assert handlers[..j + 1][..j] == handlers[..j];
        if handlers[j].kind == kind {
          log := log + [Notification(handlers[j].handler, kind, id)];
        }
        j := j + 1;
      }
    }

    /** Makes room for one entry more. */
    method Enlarge(entry: StateEntry)
      requires Shaped()
      modifies this`cache, this`cacheSize
      ensures Shaped() && fresh(cache) && Entries() == old(Entries()) + [entry]
    {
      var n := cacheSize / ENTRY_SIZE;
      var newCache := new StateEntry[n + 1](_ => entry);
      if cache != null {
        forall i | 0 <= i < n {
          newCache[i] := cache[i];
        }
      }
      cache := newCache;
      cacheSize := cacheSize + ENTRY_SIZE;
      assert cacheSize / ENTRY_SIZE == n + 1;
    }

    /** Overwrites the entry with the same key, or appends; `fits` says whether the cache can be enlarged. */
    method SetEntry(entry: StateEntry, fits: bool) returns (ok: bool)
      requires Valid()
      modifies this`cache, this`cacheSize, this`log, cache
      ensures Valid() && (cache == old(cache) || fresh(cache))
      ensures Abs() == Step(old(Abs()), SetOp(entry, fits))
      ensures ok <==> || fits
                      || exists i :: 0 <= i < |old(Entries())| && old(Entries())[i].kind == entry.kind
                                     && old(Entries())[i].id == entry.id
    {
      hide EntryMap, HandlerMap, Notified;
      ghost var s := Abs();
      StepRefines(s, SetOp(entry, fits));
      InEntryMap(Entries(), KeyOf(entry));
      var i := Find(KeyOf(entry));
      if cache != null && i < cacheSize / ENTRY_SIZE {
        cache[i] := entry;
        assert Entries() == s.entries[i := entry];
        Notify(entry.kind, entry.id);
        return true;
      }
      if !fits {
        return false;
      }
      Enlarge(entry);
      Notify(entry.kind, entry.id);
      return true;
    }

    /** Shifts the entries after position `i` down over it. */
    method ShiftDown(i: nat)
      requires Shaped() && cache != null && i < cacheSize / ENTRY_SIZE
      modifies this`cacheSize, cache
      ensures Shaped() && Entries() == old(Entries()[..i] + Entries()[i + 1..])
    {
      var n := cacheSize / ENTRY_SIZE;
      if i < n - 1 {
        forall j | i <= j < n - 1 {
          cache[j] := cache[j + 1];
        }
      }
      cacheSize := cacheSize - ENTRY_SIZE;
      assert cacheSize / ENTRY_SIZE == n - 1;
    }

    /** Removes the entry with the key, if there is one. */
    method DeleteEntry(k: Key) returns (ok: bool)
      requires Valid()
      modifies this`cacheSize, this`log, cache
      ensures Valid()
      ensures Abs() == Step(old(Abs()), DeleteOp(k))
      ensures ok <==> exists i :: 0 <= i < |old(Entries())| && old(Entries())[i].kind == k.kind
                                  && old(Entries())[i].id == k.id
    {
      hide EntryMap, HandlerMap, Notified;
      ghost var s := Abs();
      StepRefines(s, DeleteOp(k));
      InEntryMap(Entries(), k);
      var i := Find(k);
      if cache == null || i == cacheSize / ENTRY_SIZE {
        return false;
      }
      ShiftDown(i);
      Notify(k.kind, k.id);
      return true;
    }

    /** Replaces the handler of a kind or adds one; refused for no handler and for a full table. */
    method RegisterHandler(kind: int, handler: Option<nat>) returns (ok: bool)
      requires Valid()
      modifies this`handlerCount, handlers
      ensures Valid()
      ensures Abs() == Step(old(Abs()), RegisterOp(kind, handler))
      ensures ok <==> handler.Some? && old(handlerCount) < 32
    {
      hide EntryMap, HandlerMap, Notified;
      ghost var s := Abs();
      StepRefines(s, RegisterOp(kind, handler));
      if handler.None? || handlerCount >= MAX_HANDLERS {
        return false;
      }
      var i := 0;
      while i < handlerCount
        invariant i <= handlerCount && forall j :: 0 <= j < i ==> handlers[j].kind != kind
      {
        if handlers[i].kind == kind {
          SlotIs(s.handlers, kind, i);
          handlers[i] := HandlerSlot(kind, handler.value);
          assert handlers[..handlerCount] == s.handlers[i := HandlerSlot(kind, handler.value)];
          return true;
        }
        i := i + 1;
      }
      SlotIs(s.handlers, kind, i);
      handlers[handlerCount] := HandlerSlot(kind, handler.value);
      handlerCount := handlerCount + 1;
      return true;
    }
  }
}
