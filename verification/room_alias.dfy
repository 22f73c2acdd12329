/**
 * Choosing a display name for a room from its state table, by a fixed
 * precedence: the official room name (unless only aliases are wanted), then
 * the canonical alias, then the first alias published by any server.
 *
 * The servers' `m.room.aliases` events are visited in hash-table order,
 * which is unspecified. The model takes that order as a parameter `order`,
 * any enumeration of the inner map's keys; the lemmas hold for every one.
 */
module AliasResolver {
  import opened Wrappers
  import opened MatrixEvent
  import opened MatrixStateTable

  const RoomNameType := "m.room.name"
  const CanonicalAliasType := "m.room.canonical_alias"
  const AliasesType := "m.room.aliases"

  /** Step 1: the `name` of the `m.room.name` event, when it is present and non-empty. */
  function OfficialName(t: Table): (r: Option<string>)
  {
    match GetEvent(t, RoomNameType, "")
    case Some(e) => if e.content.name.Some? && e.content.name.value != "" then e.content.name else None
    case None => None
  }

  /** Step 2: the `alias` of the `m.room.canonical_alias` event, when present, even if empty. */
  function CanonicalAlias(t: Table): (r: Option<string>)
  {
    match GetEvent(t, CanonicalAliasType, "")
    case Some(e) => e.content.alias
    case None => None
  }

  /** The `m.room.aliases` events, one per contributing server. */
  function AliasEntries(t: Table): (r: map<string, Event>)
  {
    if AliasesType in t then t[AliasesType] else map[]
  }

  /** Element 0 of an event's `aliases` array, when the array is non-empty and that element is a string. */
  function LeadingAlias(e: Event): (r: Option<string>)
  {
    match e.content.aliases
    case Some(arr) => if |arr| > 0 then arr[0] else None
    case None => None
  }

  /** `order` lists each key of `keys` exactly once: a possible hash-table iteration order. */
  predicate IsEnumerationOf(order: seq<string>, keys: set<string>)
  {
    (forall i, j | 0 <= i < j < |order| :: order[i] != order[j]) &&
    (forall k | k in order :: k in keys) &&
    (forall k | k in keys :: k in order)
  }

  /**
   * Step 3: the leading alias of the first entry, in `order`, that has one;
   * absent when no entry has one.
   */
  function FirstAliasIn(entries: map<string, Event>, order: seq<string>): (r: Option<string>)
    requires forall i | 0 <= i < |order| :: order[i] in entries
    ensures r.Some? ==>
      exists i | 0 <= i < |order| ::
        LeadingAlias(entries[order[i]]) == r &&
        forall j | 0 <= j < i :: LeadingAlias(entries[order[j]]).None?
    ensures r.None? ==> forall i | 0 <= i < |order| :: LeadingAlias(entries[order[i]]).None?
    decreases |order|
  {
    if order == [] then None
    else if LeadingAlias(entries[order[0]]).Some? then LeadingAlias(entries[order[0]])
    else FirstAliasIn(entries, order[1..])
  }

  /**
   * The room's display name. The result is absent exactly when no source
   * supplies one; when present, it comes from one of the three sources.
   */
  function RoomAlias(t: Table, aliasOnly: bool, order: seq<string>): (r: Option<string>)
    requires IsEnumerationOf(order, AliasEntries(t).Keys)
    ensures r.None? <==>
      (aliasOnly || OfficialName(t).None?) && CanonicalAlias(t).None? &&
      forall k | k in AliasEntries(t) :: LeadingAlias(AliasEntries(t)[k]).None?
    ensures r.Some? ==>
      (!aliasOnly && r == OfficialName(t)) || r == CanonicalAlias(t) ||
      exists k | k in AliasEntries(t) :: LeadingAlias(AliasEntries(t)[k]) == r
  {
    if !aliasOnly && OfficialName(t).Some? then OfficialName(t)
    else if CanonicalAlias(t).Some? then CanonicalAlias(t)
    else FirstAliasIn(AliasEntries(t), order)
  }

  /**
   * `matrix_statetable_get_room_alias_new`: the three steps in turn, with
   * early returns, walking the aliases table in `order`.
   */
  method GetRoomAliasNew(table: RoomStateEventTable, aliasOnly: bool, order: seq<string>) returns (r: Option<string>)
    requires IsEnumerationOf(order, AliasEntries(table.entries).Keys)
    ensures r == RoomAlias(table.entries, aliasOnly, order)
  {
    var event := GetEvent(table.entries, RoomNameType, "");
    if event.Some? && !aliasOnly {
      var name := event.value.content.name;
      if name.Some? && name.value != "" {
        return name;
      }
    }

    event := GetEvent(table.entries, CanonicalAliasType, "");
    if event.Some? {
      var alias := event.value.content.alias;
      if alias.Some? {
        return alias;
      }
    }

    if AliasesType in table.entries {
      var inner := table.entries[AliasesType];
      var i := 0;
      while i < |order|
        invariant 0 <= i <= |order|
        invariant FirstAliasIn(inner, order) == FirstAliasIn(inner, order[i..])
      {
        var aliases := inner[order[i]].content.aliases;
        if aliases.Some? && |aliases.value| > 0 {
          var first := aliases.value[0];
          if first.Some? {
            return first;
          }
        }
        assert order[i..][1..] == order[i + 1..];
        i := i + 1;
      }
    }
    return None;
  }

  /** `matrix_statetable_get_room_alias`: the same resolution with names allowed. */
  method GetRoomAlias(table: RoomStateEventTable, order: seq<string>) returns (r: Option<string>)
    requires IsEnumerationOf(order, AliasEntries(table.entries).Keys)
    ensures r == RoomAlias(table.entries, false, order)
  {
    r := GetRoomAliasNew(table, false, order);
  }

  /** A non-empty official name wins over the canonical alias and the aliases. */
  lemma NameTakesPrecedence(t: Table, order: seq<string>, e: Event)
    requires IsEnumerationOf(order, AliasEntries(t).Keys)
    requires GetEvent(t, RoomNameType, "") == Some(e)
    requires e.content.name.Some? && e.content.name.value != ""
    ensures RoomAlias(t, false, order) == e.content.name
  {
  }

  /** An absent or empty official name falls through, as if only aliases were wanted. */
  lemma EmptyNameFallsThrough(t: Table, order: seq<string>)
    requires IsEnumerationOf(order, AliasEntries(t).Keys)
    requires GetEvent(t, RoomNameType, "").Some? ==>
      GetEvent(t, RoomNameType, "").value.content.name in {None, Some("")}
    ensures RoomAlias(t, false, order) == RoomAlias(t, true, order)
  {
  }

  /**
   * Past the name step, a present canonical alias wins over the aliases,
   * even when it is the empty string.
   */
  lemma CanonicalAliasBeforeAliases(t: Table, aliasOnly: bool, order: seq<string>, e: Event)
    requires IsEnumerationOf(order, AliasEntries(t).Keys)
    requires aliasOnly || OfficialName(t).None?
    requires GetEvent(t, CanonicalAliasType, "") == Some(e) && e.content.alias.Some?
    ensures RoomAlias(t, aliasOnly, order) == e.content.alias
  {
  }

  /**
   * Past the first two steps, the result is the leading alias of the first
   * entry in iteration order that has one.
   */
  lemma FirstServerAliasWins(t: Table, aliasOnly: bool, order: seq<string>, i: nat)
    requires IsEnumerationOf(order, AliasEntries(t).Keys)
    requires aliasOnly || OfficialName(t).None?
    requires CanonicalAlias(t).None?
    requires i < |order| && LeadingAlias(AliasEntries(t)[order[i]]).Some?
    requires forall j | 0 <= j < i :: LeadingAlias(AliasEntries(t)[order[j]]).None?
    ensures RoomAlias(t, aliasOnly, order) == LeadingAlias(AliasEntries(t)[order[i]])
  {
  }

  /**
   * When every server that publishes a leading alias publishes the same
   * one, the unspecified iteration order does not change the result.
   */
  lemma AliasOrderIrrelevant(t: Table, aliasOnly: bool, order1: seq<string>, order2: seq<string>, alias: string)
    requires IsEnumerationOf(order1, AliasEntries(t).Keys) && IsEnumerationOf(order2, AliasEntries(t).Keys)
    requires forall k | k in AliasEntries(t) :: LeadingAlias(AliasEntries(t)[k]) in {None, Some(alias)}
    ensures RoomAlias(t, aliasOnly, order1) == RoomAlias(t, aliasOnly, order2)
  {
  }

  /** Naming a room makes that name its display name. */
  lemma NamedRoomResolves(t: Table, raw: RawEvent, order: seq<string>, name: string)
    requires raw.eventType == Some(RoomNameType) && raw.stateKey == Some("") && raw.sender.Some?
    requires raw.content.Some? && raw.content.value.name == Some(name) && name != ""
    requires IsEnumerationOf(order, AliasEntries(Apply(t, raw)).Keys)
    ensures RoomAlias(Apply(t, raw), false, order) == Some(name)
  {
  }
}
