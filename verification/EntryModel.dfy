/** The entry store as a value, and the finite map with change notification it stands for. */
module EntryModel {
  import opened Forests

  const MAX_HANDLERS: nat := 32

  /** `data` stands for the address an entry carries. */
  datatype StateEntry = StateEntry(kind: int, id: string, data: int, dataSize: nat)

  /** Handlers are told apart by number. */
  datatype HandlerSlot = HandlerSlot(kind: int, handler: nat)

  datatype Notification = Notification(handler: nat, kind: int, id: string)

  datatype Key = Key(kind: int, id: string)

  function KeyOf(e: StateEntry): Key {
    Key(e.kind, e.id)
  }

  /** The position of the first entry with key `k`, or the number of entries. */
  function IndexOf(es: seq<StateEntry>, k: Key): (i: nat)
    ensures i <= |es| && (i < |es| ==> KeyOf(es[i]) == k)
    ensures forall j :: 0 <= j < i ==> KeyOf(es[j]) != k
  {
    if es == [] || KeyOf(es[0]) == k then 0 else 1 + IndexOf(es[1..], k)
  }

  lemma IndexIs(es: seq<StateEntry>, k: Key, i: nat)
    requires i <= |es| && (i < |es| ==> KeyOf(es[i]) == k)
    requires forall j :: 0 <= j < i ==> KeyOf(es[j]) != k
    ensures IndexOf(es, k) == i
  {
  }

  // ----- Operations -----

  function SetIn(es: seq<StateEntry>, e: StateEntry): seq<StateEntry> {
    var i := IndexOf(es, KeyOf(e));
    if i < |es| then es[i := e] else es + [e]
  }

  function DeleteIn(es: seq<StateEntry>, k: Key): seq<StateEntry> {
    var i := IndexOf(es, k);
    if i < |es| then es[..i] + es[i + 1..] else es
  }

  function SlotOf(hs: seq<HandlerSlot>, kind: int): (i: nat)
    ensures i <= |hs| && (i < |hs| ==> hs[i].kind == kind)
    ensures forall j :: 0 <= j < i ==> hs[j].kind != kind
  {
    if hs == [] || hs[0].kind == kind then 0 else 1 + SlotOf(hs[1..], kind)
  }

  function RegisterIn(hs: seq<HandlerSlot>, slot: HandlerSlot): seq<HandlerSlot> {
    var i := SlotOf(hs, slot.kind);
    if i < |hs| then hs[i := slot] else hs + [slot]
  }

  /** The calls made when the entry with this kind and id has changed, in slot order. */
  function Notified(hs: seq<HandlerSlot>, kind: int, id: string): seq<Notification> {
    if hs == [] then []
    else Notified(hs[..|hs| - 1], kind, id) +
         if hs[|hs| - 1].kind == kind then [Notification(hs[|hs| - 1].handler, kind, id)] else []
  }

  datatype Store = Store(entries: seq<StateEntry>, handlers: seq<HandlerSlot>, log: seq<Notification>)

  /** `fits` says whether the store can be enlarged; a handler that is missing is `None`. */
  datatype Op =
    | SetOp(entry: StateEntry, fits: bool)
    | DeleteOp(key: Key)
    | RegisterOp(kind: int, handler: Option<nat>)

  function Step(s: Store, op: Op): Store {
    match op
    case SetOp(e, fits) =>
      if IndexOf(s.entries, KeyOf(e)) < |s.entries| || fits
      then Store(SetIn(s.entries, e), s.handlers, s.log + Notified(s.handlers, e.kind, e.id)) else s
    case DeleteOp(k) =>
      if IndexOf(s.entries, k) < |s.entries|
      then Store(DeleteIn(s.entries, k), s.handlers, s.log + Notified(s.handlers, k.kind, k.id)) else s
    case RegisterOp(kind, handler) =>
      if handler.Some? && |s.handlers| < MAX_HANDLERS
      then s.(handlers := RegisterIn(s.handlers, HandlerSlot(kind, handler.value))) else s
  }

  function Run(ops: seq<Op>): Store {
    if ops == [] then Store([], [], []) else Step(Run(ops[..|ops| - 1]), ops[|ops| - 1])
  }

  // ----- The map behind the store -----

  datatype MapStore = MapStore(entries: map<Key, StateEntry>, handlers: map<int, nat>, log: seq<Notification>)

  /** A change is reported once, to the handler registered for its kind, if there is one. */
  function Report(handlers: map<int, nat>, k: Key): seq<Notification> {
    if k.kind in handlers then [Notification(handlers[k.kind], k.kind, k.id)] else []
  }

  function MapStep(s: MapStore, op: Op): MapStore {
    match op
    case SetOp(e, fits) =>
      if KeyOf(e) in s.entries || fits
      then MapStore(s.entries[KeyOf(e) := e], s.handlers, s.log + Report(s.handlers, KeyOf(e))) else s
    case DeleteOp(k) =>
      if k in s.entries then MapStore(s.entries - {k}, s.handlers, s.log + Report(s.handlers, k)) else s
    case RegisterOp(kind, handler) =>
      if handler.Some? && |s.handlers| < MAX_HANDLERS then s.(handlers := s.handlers[kind := handler.value]) else s
  }

  function MapRun(ops: seq<Op>): MapStore {
    if ops == [] then MapStore(map[], map[], []) else MapStep(MapRun(ops[..|ops| - 1]), ops[|ops| - 1])
  }

  ghost predicate UniqueKeys(es: seq<StateEntry>) {
    forall i, j :: 0 <= i < j < |es| ==> KeyOf(es[i]) != KeyOf(es[j])
  }

  ghost predicate UniqueKinds(hs: seq<HandlerSlot>) {
    forall i, j :: 0 <= i < j < |hs| ==> hs[i].kind != hs[j].kind
  }

  /** The map an array of entries represents: what looking each key up finds. */
  ghost function EntryMap(es: seq<StateEntry>): map<Key, StateEntry> {
    map k | k in (set i | 0 <= i < |es| :: KeyOf(es[i])) ::
      if IndexOf(es, k) < |es| then es[IndexOf(es, k)] else StateEntry(0, "", 0, 0)
  }

  ghost function HandlerMap(hs: seq<HandlerSlot>): map<int, nat> {
    if hs == [] then map[] else HandlerMap(hs[..|hs| - 1])[hs[|hs| - 1].kind := hs[|hs| - 1].handler]
  }

  ghost function MapOf(s: Store): MapStore {
    MapStore(EntryMap(s.entries), HandlerMap(s.handlers), s.log)
  }

  lemma InEntryMap(es: seq<StateEntry>, k: Key)
    ensures k in EntryMap(es) <==> IndexOf(es, k) < |es|
    ensures k in EntryMap(es) ==> EntryMap(es)[k] == es[IndexOf(es, k)]
  {
  }

  lemma SetKeepsUnique(es: seq<StateEntry>, e: StateEntry)
    requires UniqueKeys(es)
    ensures UniqueKeys(SetIn(es, e))
  {
  }

  lemma SetIsMapUpdate(es: seq<StateEntry>, e: StateEntry)
    requires UniqueKeys(es)
    ensures UniqueKeys(SetIn(es, e)) && EntryMap(SetIn(es, e)) == EntryMap(es)[KeyOf(e) := e]
  {
    hide EntryMap, UniqueKeys;
    var es', i := SetIn(es, e), IndexOf(es, KeyOf(e));
    SetKeepsUnique(es, e);
    forall k: Key
      ensures k in EntryMap(es') <==> k in EntryMap(es)[KeyOf(e) := e]
      ensures k in EntryMap(es') ==> EntryMap(es')[k] == EntryMap(es)[KeyOf(e) := e][k]
    {
      InEntryMap(es, k);
      InEntryMap(es', k);
      var j := IndexOf(es, k);
      if k == KeyOf(e) {
        IndexIs(es', k, i);
      } else {
        IndexIs(es', k, if j < |es| then j else |es'|);
      }
    }
  }

  lemma DeleteMovesDown(es: seq<StateEntry>, k0: Key, k: Key)
    requires UniqueKeys(es) && IndexOf(es, k0) < |es|
    ensures var es', i, j := DeleteIn(es, k0), IndexOf(es, k0), IndexOf(es, k);
            && |es'| == |es| - 1 && (k == k0 <==> j == i)
            && IndexOf(es', k) == (if k == k0 then |es'| else if j < i then j else j - 1)
            && (k != k0 && j < |es| ==> es'[IndexOf(es', k)] == es[j])
  {
    var es', i, j := DeleteIn(es, k0), IndexOf(es, k0), IndexOf(es, k);
    IndexIs(es', k, if k == k0 then |es'| else if j < i then j else j - 1);
  }

  lemma DeleteKeepsUnique(es: seq<StateEntry>, k: Key)
    requires UniqueKeys(es)
    ensures UniqueKeys(DeleteIn(es, k))
  {
  }

  lemma RemovedAt(es: seq<StateEntry>, k0: Key, k: Key)
    requires UniqueKeys(es) && IndexOf(es, k0) < |es|
    ensures k in EntryMap(DeleteIn(es, k0)) <==> k in EntryMap(es) && k != k0
    ensures k in EntryMap(DeleteIn(es, k0)) ==> EntryMap(DeleteIn(es, k0))[k] == EntryMap(es)[k]
  {
    hide EntryMap, IndexOf, UniqueKeys, DeleteIn;
    InEntryMap(es, k);
    InEntryMap(DeleteIn(es, k0), k);
    DeleteMovesDown(es, k0, k);
  }

  lemma DeleteIsMapRemoval(es: seq<StateEntry>, k0: Key)
    requires UniqueKeys(es) && IndexOf(es, k0) < |es|
    ensures EntryMap(DeleteIn(es, k0)) == EntryMap(es) - {k0}
  {
    hide EntryMap, IndexOf, UniqueKeys, DeleteIn;
    forall k: Key
      ensures k in EntryMap(DeleteIn(es, k0)) <==> k in EntryMap(es) && k != k0
      ensures k in EntryMap(DeleteIn(es, k0)) ==> EntryMap(DeleteIn(es, k0))[k] == EntryMap(es)[k]
    {
      RemovedAt(es, k0, k);
    }
  }

  // ----- Handlers -----

  lemma {:induction false} InHandlerMap(hs: seq<HandlerSlot>, kind: int)
    requires UniqueKinds(hs)
    ensures kind in HandlerMap(hs) <==> SlotOf(hs, kind) < |hs|
    ensures kind in HandlerMap(hs) ==> HandlerMap(hs)[kind] == hs[SlotOf(hs, kind)].handler
  {
    if hs != [] {
      var less := hs[..|hs| - 1];
      InHandlerMap(less, kind);
      var j := SlotOf(less, kind);
      SlotIs(hs, kind, if j < |less| then j else if hs[|hs| - 1].kind == kind then |less| else |hs|);
    }
  }

  lemma SlotIs(hs: seq<HandlerSlot>, kind: int, i: nat)
    requires i <= |hs| && (i < |hs| ==> hs[i].kind == kind)
    requires forall j :: 0 <= j < i ==> hs[j].kind != kind
    ensures SlotOf(hs, kind) == i
  {
  }

  lemma RegisterIsMapUpdate(hs: seq<HandlerSlot>, slot: HandlerSlot)
    requires UniqueKinds(hs)
    ensures UniqueKinds(RegisterIn(hs, slot)) && |RegisterIn(hs, slot)| <= |hs| + 1
    ensures HandlerMap(RegisterIn(hs, slot)) == HandlerMap(hs)[slot.kind := slot.handler]
  {
    var hs', i := RegisterIn(hs, slot), SlotOf(hs, slot.kind);
    var m, m' := HandlerMap(hs)[slot.kind := slot.handler], HandlerMap(hs');
    hide HandlerMap;
    forall k: int
      ensures k in m' <==> k in m
      ensures k in m' ==> m'[k] == m[k]
    {
      InHandlerMap(hs, k);
      InHandlerMap(hs', k);
      var j := SlotOf(hs, k);
      SlotIs(hs', k, if k == slot.kind then i else if j < |hs| then j else |hs'|);
    }
    assert m' == m;
  }

  lemma {:induction false} HandlerCount(hs: seq<HandlerSlot>)
    requires UniqueKinds(hs)
    ensures |HandlerMap(hs)| == |hs|
  {
    if hs != [] {
      HandlerCount(hs[..|hs| - 1]);
      InHandlerMap(hs[..|hs| - 1], hs[|hs| - 1].kind);
    }
  }

  /** With one slot a kind, the notification loop makes exactly the one call due, or none. */
  lemma {:induction false} NotifiedIsReport(hs: seq<HandlerSlot>, k: Key)
    requires UniqueKinds(hs)
    ensures Notified(hs, k.kind, k.id) == Report(HandlerMap(hs), k)
  {
    if hs != [] {
      NotifiedIsReport(hs[..|hs| - 1], k);
      InHandlerMap(hs[..|hs| - 1], k.kind);
    }
  }

  // ----- Refinement -----

  ghost predicate Sound(s: Store) {
    UniqueKeys(s.entries) && UniqueKinds(s.handlers) && |s.handlers| <= MAX_HANDLERS
  }

  /** Every operation does to the map behind the store what the map operation does. */
  lemma StepRefines(s: Store, op: Op)
    requires Sound(s)
    ensures Sound(Step(s, op)) && MapOf(Step(s, op)) == MapStep(MapOf(s), op)
  {
    hide EntryMap, HandlerMap, IndexOf, SlotOf, SetIn, DeleteIn, RegisterIn, Notified;
    match op
    case SetOp(e, fits) =>
      InEntryMap(s.entries, KeyOf(e));
      SetIsMapUpdate(s.entries, e);
      NotifiedIsReport(s.handlers, KeyOf(e));
    case DeleteOp(k) =>
      InEntryMap(s.entries, k);
      if IndexOf(s.entries, k) < |s.entries| {
        DeleteIsMapRemoval(s.entries, k);
        DeleteKeepsUnique(s.entries, k);
      }
      NotifiedIsReport(s.handlers, k);
    case RegisterOp(kind, handler) =>
      HandlerCount(s.handlers);
      if handler.Some? {
        RegisterIsMapUpdate(s.handlers, HandlerSlot(kind, handler.value));
      }
  }

  /** Over every run the store stays sound and stands for the map the same run builds; the calls made are
      exactly those due. */
  lemma {:induction false} RunRefines(ops: seq<Op>)
    ensures Sound(Run(ops)) && MapOf(Run(ops)) == MapRun(ops)
  {
    if ops != [] {
      RunRefines(ops[..|ops| - 1]);
      StepRefines(Run(ops[..|ops| - 1]), ops[|ops| - 1]);
    } else {
      assert EntryMap([]) == map[] && HandlerMap([]) == map[];
    }
  }

  /** Overwriting keeps an entry's position; a new entry goes last. */
  lemma SetKeepsOrder(es: seq<StateEntry>, e: StateEntry)
    ensures var i := IndexOf(es, KeyOf(e));
            && SetIn(es, e)[..i] == es[..i] && i < |SetIn(es, e)| && SetIn(es, e)[i] == e
            && SetIn(es, e)[i + 1..] == if i < |es| then es[i + 1..] else []
  {
  }

  /** Where an entry left by a deletion was before. */
  lemma CameFrom(es: seq<StateEntry>, k: Key, a: nat)
    requires UniqueKeys(es) && a < |DeleteIn(es, k)|
    ensures var from := IndexOf(es, KeyOf(DeleteIn(es, k)[a]));
            from == (if a < IndexOf(es, k) then a else a + 1) < |es| && es[from] == DeleteIn(es, k)[a]
  {
    IndexIs(es, KeyOf(DeleteIn(es, k)[a]), if a < IndexOf(es, k) then a else a + 1);
  }

  /** Deletion removes one entry and keeps the others in order. */
  lemma DeleteKeepsOrder(es: seq<StateEntry>, k: Key, a: nat, b: nat)
    requires UniqueKeys(es) && a < b < |DeleteIn(es, k)|
    ensures var es' := DeleteIn(es, k);
            && IndexOf(es, KeyOf(es'[a])) < IndexOf(es, KeyOf(es'[b])) < |es|
            && es[IndexOf(es, KeyOf(es'[a]))] == es'[a] && es[IndexOf(es, KeyOf(es'[b]))] == es'[b]
  {
    hide IndexOf, DeleteIn, UniqueKeys;
    CameFrom(es, k, a);
    CameFrom(es, k, b);
  }

  // ----- The operations by their effects -----

  /** The one report due after a change, in terms of the slots. */
  ghost predicate Reported(s: Store, t: Store, kind: int, id: string) {
    && (forall j :: 0 <= j < |s.handlers| && s.handlers[j].kind == kind ==>
          t.log == s.log + [Notification(s.handlers[j].handler, kind, id)])
    && ((forall j :: 0 <= j < |s.handlers| ==> s.handlers[j].kind != kind) ==> t.log == s.log)
  }

  lemma NotifiedOnce(s: Store, t: Store, kind: int, id: string)
    requires Sound(s) && t.log == s.log + Notified(s.handlers, kind, id)
    ensures Reported(s, t, kind, id)
  {
    hide UniqueKeys, HandlerMap, Notified;
    NotifiedIsReport(s.handlers, Key(kind, id));
    InHandlerMap(s.handlers, kind);
    forall j | 0 <= j < |s.handlers| && s.handlers[j].kind == kind
      ensures SlotOf(s.handlers, kind) == j
    {
      SlotIs(s.handlers, kind, j);
    }
    assert s.log + [] == s.log;
  }

  /** Setting overwrites the entry of that kind and id where it stands.  If there is none it appends the entry, or
      changes nothing when there is no room.  A change is reported to the handler of the kind. */
  lemma SetDoes(s: Store, e: StateEntry, fits: bool)
    requires Sound(s)
    ensures var t := Step(s, SetOp(e, fits));
            && t.handlers == s.handlers
            && (forall i :: 0 <= i < |s.entries| && s.entries[i].kind == e.kind && s.entries[i].id == e.id ==>
                  t.entries == s.entries[i := e] && Reported(s, t, e.kind, e.id))
            && ((forall i :: 0 <= i < |s.entries| ==> s.entries[i].kind != e.kind || s.entries[i].id != e.id) ==>
                  if fits then t.entries == s.entries + [e] && Reported(s, t, e.kind, e.id) else t == s)
  {
    hide Notified, Reported, UniqueKinds;
    var t := Step(s, SetOp(e, fits));
    if t.log == s.log + Notified(s.handlers, e.kind, e.id) {
      NotifiedOnce(s, t, e.kind, e.id);
    }
  }

  /** Deleting takes out the entry of that kind and id and reports it, or changes nothing when there is none. */
  lemma DeleteDoes(s: Store, k: Key)
    requires Sound(s)
    ensures var t := Step(s, DeleteOp(k));
            && t.handlers == s.handlers
            && (forall i :: 0 <= i < |s.entries| && s.entries[i].kind == k.kind && s.entries[i].id == k.id ==>
                  t.entries == s.entries[..i] + s.entries[i + 1..] && Reported(s, t, k.kind, k.id))
            && ((forall i :: 0 <= i < |s.entries| ==> s.entries[i].kind != k.kind || s.entries[i].id != k.id) ==>
                  t == s)
  {
    hide Notified, Reported, UniqueKinds;
    var t := Step(s, DeleteOp(k));
    if t.log == s.log + Notified(s.handlers, k.kind, k.id) {
      NotifiedOnce(s, t, k.kind, k.id);
    }
  }

  /** Registering replaces the handler of the kind in its slot or takes a new slot, calls nobody, and is refused for a
      missing handler and when 32 slots are taken. */
  lemma RegisterDoes(s: Store, kind: int, handler: Option<nat>)
    requires Sound(s)
    ensures var t := Step(s, RegisterOp(kind, handler));
            && t.entries == s.entries && t.log == s.log
            && (handler.None? || |s.handlers| >= 32 ==> t == s)
            && (handler.Some? && |s.handlers| < 32 ==>
                  && (forall j :: 0 <= j < |s.handlers| && s.handlers[j].kind == kind ==>
                        t.handlers == s.handlers[j := HandlerSlot(kind, handler.value)])
                  && ((forall j :: 0 <= j < |s.handlers| ==> s.handlers[j].kind != kind) ==>
                        t.handlers == s.handlers + [HandlerSlot(kind, handler.value)]))
  {
    forall j | 0 <= j < |s.handlers| && s.handlers[j].kind == kind
      ensures SlotOf(s.handlers, kind) == j
    {
      SlotIs(s.handlers, kind, j);
    }
  }
}
