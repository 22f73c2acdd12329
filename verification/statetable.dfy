/**
 * The room state table: event type -> state key -> latest state event.
 *
 * The table is a class whose one field is the nested map; `Update` changes
 * it in place, step by step, as the C code changes its nested hash tables.
 * The pure functions `GetEvent`, `Admit`, `Store`, `Apply` and `HookCall`
 * are the specification the class is proved against, and the lemmas at the
 * end state what a sequence of updates does.
 */
module MatrixStateTable {
  import opened Wrappers
  import opened MatrixEvent

  /** Event type -> state key -> event. Order within either level is irrelevant. */
  type Table = map<string, map<string, Event>>

  /** The ephemeral typing notification, kept in one fixed slot per room. */
  const TypingType := "m.typing"
  const TypingKey := "typing"

  /** An update that passed validation: the slot it writes and the event it stores. */
  datatype Accepted = Accepted(eventType: string, stateKey: string, event: Event)

  /** The arguments the update hook receives: the slot, the value it held, and the value about to replace it. */
  datatype Notification = Notification(eventType: string, stateKey: string, oldEvent: Option<Event>, newEvent: Event)

  /**
   * Two-level lookup: absent when the type has no inner map or the inner map
   * lacks the key. Being a function of the table, it cannot create entries.
   */
  function GetEvent(t: Table, eventType: string, stateKey: string): (r: Option<Event>)
    ensures r.None? <==> eventType !in t || stateKey !in t[eventType]
    ensures r.Some? ==> eventType in t && r.value == t[eventType][stateKey]
  {
    if eventType !in t then None
    else
      var inner := t[eventType];
      if stateKey in inner then Some(inner[stateKey]) else None
  }

  /**
   * Reading, normalising and validating the envelope of an incoming event,
   * and building the event to store. A typing event is redirected to the
   * fixed slot with an empty sender; the update is rejected exactly when a
   * member is missing after that rewrite. Empty strings are not missing.
   */
  function Admit(raw: RawEvent): (r: Option<Accepted>)
    ensures r.Some? <==>
      raw.eventType.Some? && raw.content.Some? &&
      (raw.eventType.value == TypingType || (raw.stateKey.Some? && raw.sender.Some?))
    ensures r.Some? ==>
      r.value.eventType == raw.eventType.value &&
      r.value.event.eventType == r.value.eventType &&
      r.value.event.content == raw.content.value
    ensures r.Some? && r.value.eventType == TypingType ==>
      r.value.stateKey == TypingKey && r.value.event.sender == ""
    ensures r.Some? && r.value.eventType != TypingType ==>
      r.value.stateKey == raw.stateKey.value && r.value.event.sender == raw.sender.value
  {
    var (stateKey, sender) :=
      if raw.eventType == Some(TypingType) then (Some(TypingKey), Some("")) else (raw.stateKey, raw.sender);
    if raw.eventType.None? || stateKey.None? || sender.None? || raw.content.None? then None
    else Some(Accepted(raw.eventType.value, stateKey.value,
                       Event(raw.eventType.value, sender.value, raw.content.value)))
  }

  /**
   * The commit: the inner map for the type is created if missing, then the
   * event is inserted under the key, replacing any earlier value.
   */
  function Store(t: Table, eventType: string, stateKey: string, event: Event): (r: Table)
    ensures GetEvent(r, eventType, stateKey) == Some(event)
    ensures forall ty, k | ty != eventType || k != stateKey :: GetEvent(r, ty, k) == GetEvent(t, ty, k)
    ensures r.Keys == t.Keys + {eventType}
    ensures forall ty | ty in t && ty != eventType :: r[ty] == t[ty]
    ensures r[eventType].Keys == (if eventType in t then t[eventType].Keys else {}) + {stateKey}
  {
    var inner := if eventType in t then t[eventType] else map[];
    t[eventType := inner[stateKey := event]]
  }

  /**
   * The effect of one update on the table. A rejected event leaves the
   * table as it was; an accepted one replaces exactly its own slot, and the
   * only structure it may add is the inner map for its type.
   */
  function Apply(t: Table, raw: RawEvent): (r: Table)
    ensures Admit(raw).None? ==> r == t
    ensures Admit(raw).Some? ==>
      var a := Admit(raw).value;
      GetEvent(r, a.eventType, a.stateKey) == Some(a.event) &&
      (forall ty, k | ty != a.eventType || k != a.stateKey :: GetEvent(r, ty, k) == GetEvent(t, ty, k)) &&
      r.Keys == t.Keys + {a.eventType}
  {
    match Admit(raw)
    case None => t
    case Some(a) => Store(t, a.eventType, a.stateKey, a.event)
  }

  /**
   * The call the hook receives for one update, if any: none for a rejected
   * event; otherwise the slot, the value held there before the update
   * (absent for a new type or key), and the very event the commit stores.
   */
  function HookCall(t: Table, raw: RawEvent): (r: Option<Notification>)
    ensures r.Some? <==> Admit(raw).Some?
    ensures r.Some? ==>
      Admit(raw) == Some(Accepted(r.value.eventType, r.value.stateKey, r.value.newEvent)) &&
      r.value.oldEvent == GetEvent(t, r.value.eventType, r.value.stateKey) &&
      GetEvent(Apply(t, raw), r.value.eventType, r.value.stateKey) == Some(r.value.newEvent)
  {
    match Admit(raw)
    case None => None
    case Some(a) => Some(Notification(a.eventType, a.stateKey, GetEvent(t, a.eventType, a.stateKey), a.event))
  }

  /** The state table of one room. */
  class RoomStateEventTable {
    var entries: Table

    /** A new, empty table. */
    constructor ()
      ensures entries == map[]
    {
      entries := map[];
    }

    /** Releases every inner map and event: nothing is left in the table. */
    method Destroy()
      modifies this
      ensures entries == map[]
    {
      entries := map[];
    }

    /**
     * Applies one incoming event. `callback` says whether a hook was
     * supplied; `notified` is the call it receives. `seenByHook` is the
     * table as it stands while the hook runs: every old value is still
     * there, and the inner map for a new type has already been added.
     */
    method Update(raw: RawEvent, callback: bool) returns (notified: Option<Notification>, ghost seenByHook: Table)
      modifies this
      ensures entries == Apply(old(entries), raw)
      ensures notified == if callback then HookCall(old(entries), raw) else None
      ensures forall ty, k :: GetEvent(seenByHook, ty, k) == GetEvent(old(entries), ty, k)
      ensures seenByHook.Keys == entries.Keys
    {
      var eventType, stateKey, sender, content := raw.eventType, raw.stateKey, raw.sender, raw.content;
      if eventType == Some(TypingType) {
        // typing state lives in one fixed slot per room
        stateKey, sender := Some(TypingKey), Some("");
      }
      if eventType.None? || stateKey.None? || sender.None? || content.None? {
        notified, seenByHook := None, entries;
        return;
      }

      var event := Event(eventType.value, sender.value, content.value);

      var inner: map<string, Event>;
      var oldEvent: Option<Event>;
      if eventType.value !in entries {
        inner := map[];
        entries := entries[eventType.value := inner];
        oldEvent := None;
      } else {
        inner := entries[eventType.value];
        oldEvent := if stateKey.value in inner then Some(inner[stateKey.value]) else None;
      }

      seenByHook := entries;
      notified := if callback then Some(Notification(eventType.value, stateKey.value, oldEvent, event)) else None;

      entries := entries[eventType.value := inner[stateKey.value := event]];
    }
  }

  /** The table after a sequence of `Update` calls, in order. */
  function ApplyAll(t: Table, raws: seq<RawEvent>): (r: Table)
    decreases |raws|
  {
    if raws == [] then t
    else Apply(ApplyAll(t, raws[..|raws| - 1]), raws[|raws| - 1])
  }

  /** The update is accepted and writes slot (eventType, stateKey). */
  predicate Writes(raw: RawEvent, eventType: string, stateKey: string)
  {
    Admit(raw).Some? && Admit(raw).value.eventType == eventType && Admit(raw).value.stateKey == stateKey
  }

  /** A slot that no update in the sequence writes keeps its original value. */
  lemma {:induction false} UnwrittenSlotUnchanged(t: Table, raws: seq<RawEvent>, eventType: string, stateKey: string)
    requires forall j | 0 <= j < |raws| :: !Writes(raws[j], eventType, stateKey)
    ensures GetEvent(ApplyAll(t, raws), eventType, stateKey) == GetEvent(t, eventType, stateKey)
    decreases |raws|
  {
    if raws != [] {
      var n := |raws| - 1;
      assert forall j | 0 <= j < n :: raws[..n][j] == raws[j];
      UnwrittenSlotUnchanged(t, raws[..n], eventType, stateKey);
    }
  }

  /**
   * Last writer wins: after a sequence of updates, a slot holds the event
   * of the last accepted update that wrote it; earlier values are gone.
   */
  lemma {:induction false} LastWriterWins(t: Table, raws: seq<RawEvent>, i: nat, eventType: string, stateKey: string)
    requires i < |raws| && Writes(raws[i], eventType, stateKey)
    requires forall j | i < j < |raws| :: !Writes(raws[j], eventType, stateKey)
    ensures GetEvent(ApplyAll(t, raws), eventType, stateKey) == Some(Admit(raws[i]).value.event)
    decreases |raws|
  {
    var n := |raws| - 1;
    if i < n {
      assert forall j | 0 <= j < n :: raws[..n][j] == raws[j];
      LastWriterWins(t, raws[..n], i, eventType, stateKey);
    }
  }

  /**
   * Consecutive updates of one slot: the second hook call sees, as its old
   * value, exactly the event the first update stored.
   */
  lemma HookSeesPreviousWrite(t: Table, first: RawEvent, second: RawEvent, eventType: string, stateKey: string)
    requires Writes(first, eventType, stateKey) && Writes(second, eventType, stateKey)
    ensures HookCall(Apply(t, first), second)
         == Some(Notification(eventType, stateKey, Some(Admit(first).value.event), Admit(second).value.event))
  {
  }

  /** A typing event always lands in the fixed slot, with an empty sender, and touches no other typing slot. */
  lemma TypingGoesToFixedSlot(t: Table, raw: RawEvent)
    requires raw.eventType == Some(TypingType) && raw.content.Some?
    ensures GetEvent(Apply(t, raw), TypingType, TypingKey) == Some(Event(TypingType, "", raw.content.value))
    ensures forall k | k != TypingKey :: GetEvent(Apply(t, raw), TypingType, k) == GetEvent(t, TypingType, k)
  {
  }

  /** Only absence rejects: an empty state key or an empty sender is accepted. */
  lemma EmptyStringsAccepted(t: Table, eventType: string, content: Content)
    ensures GetEvent(Apply(t, RawEvent(Some(eventType), Some(""), Some(""), Some(content))), eventType, if eventType == TypingType then TypingKey else "")
         == Some(Event(eventType, "", content))
  {
  }
}
