/**
 * The values the read-state engine of data/src/history/metadata.rs works on:
 * the persisted record, the read marker, the messages it is derived from and
 * the kinds of conversation it is kept for.
 */
module MetadataTypes {

  datatype Option<+T> = None | Some(value: T)

  /** An instant of `DateTime<Utc>`, as a signed count of clock ticks since the epoch. */
  type Instant = int

  /**
   * `ReadMarker(DateTime<Utc>)`. Its derived ordering is the ordering of the
   * wrapped instant, so `a >= b` is `a.dateTime >= b.dateTime`.
   */
  datatype ReadMarker = ReadMarker(dateTime: Instant)

  /**
   * The parts of a chat message the engine reads: its server time, whether its
   * source is `Source::Internal(_)`, and what `triggers_unread()` answers for it.
   */
  datatype Message = Message(serverTime: Instant, internal: bool, triggersUnread: bool)

  /** The persisted record: one per metadata file. */
  datatype Metadata = Metadata(readMarker: Option<ReadMarker>, lastTriggersUnread: Option<Instant>)

  /** `Metadata::default()`: nothing read, no unread-triggering message seen. */
  const Default := Metadata(None, None)

  /** `history::Kind`: what a record is kept for on a server. */
  datatype Kind = Server | Channel(channel: string) | Query(nick: string) | Logs

  /**
   * The errors that reach callers: the metadata directory cannot be resolved
   * (`dir_path()` fails) or `fs::write` fails.
   */
  datatype Error = DirUnavailable | WriteFailed

  datatype Result<+T> = Ok(value: T) | Err(error: Error)
}
