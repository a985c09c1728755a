# Read-state metadata of a chat history

A model of the read-state persistence engine of the halloy chat client
(`data/src/history/metadata.rs`). For every conversation on a server (the
server buffer, a channel, a query with a nickname, or the aggregate log view)
the client keeps one small record: the read marker (the instant up to which the
user has read) and the server time of the newest message that triggers an
unread indicator. The engine

- derives both values from an ordered message list (`ReadMarker::latest`,
  `latest_triggers_unread`: a backwards `find`),
- builds a per-kind name for the record and hashes it into a file name (`path`),
- reads the record back, treating a missing or undecodable file as the default
  record (`load`),
- overwrites the record unconditionally (`save`), and
- raises the stored read marker by a read-modify-write that does not lower it
  as long as no write fails (`update`).

Files:

- `types.dfy` (module `MetadataTypes`): `ReadMarker` over an integer instant
  (its derived ordering is integer order), `Message` (server time, internal
  source, triggers unread), `Metadata`, `Kind`, `Error`, `Result`.
- `derivation.dfy` (module `Derivation`): the two derivations as functions over
  a generic backwards find, `RevFind`, specified as "the last position
  satisfying the predicate".
- `paths.dfy` (module `Paths`): the canonical name string of `path`.
- `store.dfy` (module `Store`): the metadata directory as a map from the 64-bit
  hash of a name to what that file holds (a decodable record or undecodable
  bytes); pure transitions `SaveStep` and `UpdateStep` with their properties;
  and the class `MetadataStore`, whose methods `Load`, `Save` and `Update`
  read and overwrite its `files` map as the source reads and overwrites files.
  The environment is part of the store. `dirAvailable` says whether
  `dir_path()` resolves. `writeOutcome` says how `fs::write` ends: it
  completes, fails before touching the file, or fails after truncating it (the
  file then holds bytes that do not decode). `hash`
  is the injected `seahash::hash`.

Isolation is stated per file key (`files - {key} == old(files) - {key}`).
It is not stated per `(server, kind)` pair, because distinct pairs can share a
name. `Paths.NamesCollideAcrossServers` shows two such pairs.

## Model

| member | source | states |
|---|---|---|
| `Derivation.RevFind` | data/src/history/metadata.rs:23-26 | a backwards `find` answers nothing exactly when no element satisfies the predicate, and otherwise the position of the last element that does |
| `Derivation.Latest` | data/src/history/metadata.rs:22-29 | the read marker is nothing exactly when every message is internal (the empty list included), and otherwise the server time of the last non-internal message |
| `Derivation.LatestTriggersUnread` | data/src/history/metadata.rs:52-58 | nothing exactly when no message triggers unread, otherwise the server time of the last message that does |
| `Derivation.RevFindAppend` | data/src/history/metadata.rs:23-26 | an appended element is found first if it satisfies the predicate; otherwise the answer is the one for the list without it |
| `Derivation.LatestAfterArrival` | data/src/history/metadata.rs:22-29 | a newly appended non-internal message becomes the read marker; an internal one leaves the marker as it was |
| `Derivation.LatestTriggersUnreadAfterArrival` | data/src/history/metadata.rs:52-58 | a newly appended message that triggers unread becomes the last trigger; any other leaves it as it was |
| `Derivation.LatestIsNewestExternal` | data/src/history/metadata.rs:22-29 | on a list in server-time order, the read marker is the time of some non-internal message and no non-internal message is later |
| `Paths.CanonicalName` | data/src/history/metadata.rs:117-122 | every name ends in `-metadata`; every kind but `Logs` starts with the server's text; the `Logs` name is `log-metadata` whatever the server |
| `Paths.NameDeterminesKindOnServer` | data/src/history/metadata.rs:117-122 | on one server, two channels (or two queries) get the same name only when they are the same channel (query) |
| `Paths.NamesOnOneServer` | data/src/history/metadata.rs:117-122 | on one server, two different kinds get the same name only when the server's text is `log` and the kinds are `Server` and `Logs` |
| `Paths.ChannelAndQueryNamesDiffer` | data/src/history/metadata.rs:119-120 | a channel and a query on the same server never get the same name |
| `Paths.NamesCollideAcrossServers` | data/src/history/metadata.rs:117-122 | server `achannelb` and channel `b` on server `a` get the same name, and so do server `log` and the logs of any server |
| `Store.SaveStep` | data/src/history/metadata.rs:76-83 | after a save the file reads back as exactly the saved record, whatever it held; no other file changes |
| `Store.UpdateStep` | data/src/history/metadata.rs:93-111 | after an update the stored marker is the larger of the old marker and the candidate, with an absent marker lowest; the unread trigger is carried over; nothing changes when the stored marker is at or after the candidate; no other file changes |
| `Store.SequentialUpdatesKeepMaximum` | data/src/history/metadata.rs:93-111 | after updates in sequence the marker is the largest of the stored marker and every candidate, and it is one of them; the unread trigger is kept; no other file changes |
| `Store.UpdatesFromNothingEndAtMaximum` | data/src/history/metadata.rs:93-111 | from a missing file, updates with m1 .. mn leave max(m1 .. mn) stored |
| `Store.TruncationLetsMarkerRegress` | data/src/history/metadata.rs:93-109 | once a failed write has truncated the file, the next update stores any candidate, even one below the marker the file held |
| `Store.UpdateIsIdempotent` | data/src/history/metadata.rs:95-100 | repeating an update with the same marker changes nothing |
| `Store.MetadataStore.Path` | data/src/history/metadata.rs:114-127 | fails, with the directory error, exactly when the metadata directory cannot be resolved; otherwise the file is the hash of the canonical name |
| `Store.MetadataStore.Write` | data/src/history/metadata.rs:83 | the `fs::write` of `save` (line 83) and of `update` (line 109): a completed write replaces the whole file with the record; a failed one returns the write error and leaves the file either as it was or truncated, so that it reads as the default record; no other file changes |
| `Store.MetadataStore.Load` | data/src/history/metadata.rs:60-68 | fails only when the directory cannot be resolved; a missing or undecodable file gives the default record (no marker, no trigger); otherwise the decoded record; in every success case the result is what `Loaded` gives for the file |
| `Store.MetadataStore.Save` | data/src/history/metadata.rs:70-86 | fails with the directory error when the directory cannot be resolved, else with the write error when the write fails, and otherwise succeeds; then the file holds exactly the given marker (so `None` clears it) and the newest unread trigger of the messages, and no other file changes; a directory error changes nothing; a write that fails may leave the file truncated, reading back as the default record |
| `Store.MetadataStore.Update` | data/src/history/metadata.rs:88-112 | fails without writing when the directory cannot be resolved; succeeds without writing when the stored marker is at or after the candidate; otherwise stores the candidate with the loaded unread trigger, or fails with a write error that leaves the file as it was or truncated, so that it reads back as the default record; no other file changes |

## Left out

- RFC 3339 text form of `ReadMarker` (`FromStr` and `Display`, lines 36-50) and its round trip. They depend on the `chrono` parser and formatter, which are not part of this model.
- JSON encoding and decoding of `Metadata` (serde_json). A file either holds a decodable record or undecodable bytes. Encoding never fails in the model, so the serialization error of `save` and `update` is not modelled.
- `seahash::hash` (line 124) is a parameter of the store, `hash: string -> u64`. The file is keyed by the hash value. The decimal `.json` file name and the `dir_path()` join (lines 115, 126) are not modelled, since formatting a number in decimal is injective.
- The failure of `dir_path()` and the outcome of `fs::write` are fixed properties of the store (`dirAvailable`, `writeOutcome`), not events that vary from call to call.
- `Store.MetadataStore.Write`: a truncated file is modelled as undecodable bytes. A partial write whose bytes still decode to some other record is not modelled.
- `Store.MetadataStore.Update`: resolves `path` a second time before writing (line 107), as the source does. In the model that cannot fail once `load` succeeded, because `dirAvailable` does not change.
- Asynchronous execution and the race of two `update` calls on the same file. Calls are sequential, so monotonicity holds only for sequential callers, and only while no write fails after truncating the file (`Store.TruncationLetsMarkerRegress`).
- `Message::target.source()` and `triggers_unread()` live outside this file. A message carries their answers as two booleans.
- `ReadMarker::date_time` is the field `dateTime` of the datatype.
- Clock precision: instants are integers, so no precision is lost or truncated.
