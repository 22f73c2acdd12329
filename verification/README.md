# Room state table of the purple-matrix client

This project models `matrix-statetable.c`, the room state table of a Matrix
client plugin, and proves what it does.

The state table keeps the latest state event of a room for every pair of
event type and state key. It is a two-level store: event type → state key →
event. `matrix_statetable_update` reads the envelope of an incoming event. It
moves `m.typing` events to the fixed slot `("m.typing", "typing")` with an
empty sender. It rejects the event when a member is missing. Otherwise it
builds the new event and creates the inner map for the type if needed. Then
it calls the update hook with the old and the new value, and commits the new
one. `matrix_statetable_get_room_alias_new` picks a display name for the room
in three steps: the official name, the canonical alias, then the first alias
any server published.

Files:

- `wrappers.dfy`: `Option`, which stands for a pointer that may be NULL.
- `matrix_event.dfy`: the event as stored (`Event`) and as received (`RawEvent`). The JSON content is cut down to the three members read here: `name`, `alias` and `aliases`.
- `statetable.dfy`: module `MatrixStateTable`. It holds the class `RoomStateEventTable`, whose field `entries` is the nested map. `Update` changes that map in place, in the same steps as the C code. The pure functions `GetEvent`, `Admit`, `Store`, `Apply` and `HookCall` are its specification. The lemmas cover sequences of updates.
- `room_alias.dfy`: module `AliasResolver`. It holds the resolution as a function, `RoomAlias`, and the loop that implements it, `GetRoomAliasNew`.

The update hook is modelled by the arguments it receives. `Update` takes
`callback`, which says whether a hook was supplied. It returns `notified`,
the one call that hook receives (`None` when there is no hook or the event is
rejected). The ghost result `seenByHook` is the table while the hook runs. It
still holds every old value, and the inner map for a new type is already in
place.

Hash-table iteration over the `m.room.aliases` entries has no defined order.
The model takes the order as a parameter, which may be any enumeration of the
inner map's keys (`IsEnumerationOf`). The lemmas hold for every such order.

Two details of the code that the model keeps:

- Only a missing (NULL) member rejects an update. An empty sender or an empty state key is accepted (`matrix-statetable.c:93-94`).
- In step 3 of the alias resolution, element 0 of an `aliases` array must be a string. If it is not, the walk moves on to the next server's entry (`matrix-statetable.c:175-179`).

## Model

| member | source | states |
|---|---|---|
| `MatrixStateTable.GetEvent` | matrix-statetable.c:52-63 | The lookup is absent exactly when the type has no inner map or the inner map lacks the key. Otherwise it is the stored event. It is a function of the table, so it creates nothing. |
| `MatrixStateTable.Admit` | matrix-statetable.c:78-100 | An event is accepted exactly when type and content are present and, unless it is a typing event, state key and sender are too. Empty strings count as present. A typing event goes to key `"typing"` with sender `""`. Any other event keeps its own key and sender. The built event carries the type and content it arrived with. |
| `MatrixStateTable.Store` | matrix-statetable.c:102-118 | After the commit the slot holds the new event and every other slot is unchanged. The outer keys gain at most the new type. Other inner maps are untouched. The inner map of the type gains at most the key. |
| `MatrixStateTable.Apply` | matrix-statetable.c:78-118 | A rejected update leaves the table identical. An accepted one makes its slot hold the new event, leaves every other slot's lookup unchanged, and adds at most its type to the outer keys. |
| `MatrixStateTable.HookCall` | matrix-statetable.c:102-116 | The hook is called exactly when the update is accepted. Its old value is what the slot held before: absent for a new type or key. Its new value is the accepted event, and that is the event the commit stores. |
| `MatrixStateTable.RoomStateEventTable.constructor` | matrix-statetable.c:34-38 | A new table is empty. |
| `MatrixStateTable.RoomStateEventTable.Destroy` | matrix-statetable.c:41-44 | Afterwards nothing is left in the table. |
| `MatrixStateTable.RoomStateEventTable.Update` | matrix-statetable.c:69-119 | The new table is `Apply` of the old one. The hook receives `HookCall` of the old table if a hook was supplied, and nothing otherwise. While the hook runs, every lookup still gives the old value and the inner map for a new type already exists. |
| `MatrixStateTable.UnwrittenSlotUnchanged` | matrix-statetable.c:99-118 | A slot that no update in a sequence writes keeps its original value. |
| `MatrixStateTable.LastWriterWins` | matrix-statetable.c:99-118 | After a sequence of updates, a slot holds the event of the last accepted update that wrote it. Earlier values for that slot can no longer be reached. |
| `MatrixStateTable.HookSeesPreviousWrite` | matrix-statetable.c:102-118 | For two updates of one slot in a row, the second hook call gets the event the first update stored as its old value. |
| `MatrixStateTable.TypingGoesToFixedSlot` | matrix-statetable.c:87-91 | A typing event with content is stored under `("m.typing", "typing")` with an empty sender, whatever key and sender it carried. Other `m.typing` keys are not touched. |
| `MatrixStateTable.EmptyStringsAccepted` | matrix-statetable.c:93-97 | An event whose state key and sender are both `""` is accepted and stored. |
| `AliasResolver.FirstAliasIn` | matrix-statetable.c:165-181 | The result is the leading alias of some entry, with no entry before it in iteration order having one. It is absent only if no entry has a leading alias: a non-empty `aliases` array whose element 0 is a string. |
| `AliasResolver.RoomAlias` | matrix-statetable.c:137-185 | There is no display name exactly when no step supplies one. The steps are: a non-empty official name (only when names are allowed), a present canonical alias, or a server's leading alias. Any name returned comes from one of these sources. |
| `AliasResolver.GetRoomAliasNew` | matrix-statetable.c:137-185 | The loop with early returns computes `RoomAlias` for the given iteration order. |
| `AliasResolver.GetRoomAlias` | matrix-statetable.c:126-129 | Same as `GetRoomAliasNew` with `alias_only` false. |
| `AliasResolver.NameTakesPrecedence` | matrix-statetable.c:143-151 | When names are allowed, a non-empty `name` in `m.room.name` is the result, whatever the aliases say. |
| `AliasResolver.EmptyNameFallsThrough` | matrix-statetable.c:144-151 | An absent or empty official name gives the same result as asking for aliases only. |
| `AliasResolver.CanonicalAliasBeforeAliases` | matrix-statetable.c:153-162 | Past the name step, a present canonical alias is the result, even when it is empty. |
| `AliasResolver.FirstServerAliasWins` | matrix-statetable.c:164-181 | Past the first two steps, the result is the leading alias of the first entry in iteration order that has one. |
| `AliasResolver.AliasOrderIrrelevant` | matrix-statetable.c:164-182 | If every server that publishes a leading alias publishes the same one, every iteration order gives the same result. |
| `AliasResolver.NamedRoomResolves` | matrix-statetable.c:143-151 | After an accepted `m.room.name` update with a non-empty name under key `""`, that name is the room's display name. |

## Left out

- JSON parsing and the JSON accessors (`matrix_json_object_get_*`, `json_array_get_length`). Content is reduced to `name`, `alias` and `aliases`. A member that is missing or of the wrong JSON type is `None`.
- `matrix_event_new`: matrix-event.c is not part of this model. An event is taken to be a record of type, sender and content.
- Memory management: string copies, freeing the replaced event, and the hash tables' destroy callbacks. Replacement is the only visible effect. `Destroy` is modelled as the table becoming empty.
- The debug warning logged when an event is rejected.
- What the hook does, and its `user_data` pointer. Only the arguments it receives are modelled. An `update` called again from inside the hook is undefined behaviour and is not modelled.
- The concrete iteration order of GLib hash tables. It is a parameter here, as described above.
