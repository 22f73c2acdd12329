/**
 * Room events as the state table sees them.
 *
 * The JSON content of an event is abstracted to the three members that the
 * state table and the room-name resolution read. A JSON accessor that finds
 * the member missing, or of the wrong JSON type, yields NULL; here that is
 * `None`. The elements of the `aliases` array are `None` when they are not
 * strings.
 */
module MatrixEvent {
  import opened Wrappers

  /** The part of an event's `content` object that this core reads. */
  datatype Content = Content(
    name: Option<string>,                  // "name" (m.room.name)
    alias: Option<string>,                 // "alias" (m.room.canonical_alias)
    aliases: Option<seq<Option<string>>>   // "aliases" (m.room.aliases)
  )

  /** A stored state event: what `matrix_event_new` builds, with the sender set afterwards. */
  datatype Event = Event(eventType: string, sender: string, content: Content)

  /**
   * An event as it arrives from the server, before validation: each of the
   * four envelope members may be missing.
   */
  datatype RawEvent = RawEvent(
    eventType: Option<string>,
    stateKey: Option<string>,
    sender: Option<string>,
    content: Option<Content>
  )
}
