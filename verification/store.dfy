/**
 * Loading, saving and updating the record kept for a `(server, kind)` pair.
 * The metadata directory is a map from a file's hashed name to what the file
 * holds; `load`, `save` and `update` are methods of the store that owns it.
 */
module Store {
  import opened MetadataTypes
  import opened Derivation
  import opened Paths

  /** The result type of `seahash::hash`. */
  newtype u64 = x: int | 0 <= x < 0x1_0000_0000_0000_0000

  /**
   * What a metadata file holds: bytes that decode to a record, or bytes that
   * cannot be read or do not decode (corrupt or truncated JSON).
   */
  datatype Entry = Decodable(record: Metadata) | Undecodable

  /**
   * How `fs::write` ends: it completes, it fails before touching the file
   * (it cannot be opened), or it fails after creating or truncating the file,
   * leaving bytes that do not decode (disk full, an I/O error mid-write).
   */
  datatype WriteOutcome = Completes | FailsBeforeTruncating | FailsAfterTruncating

  /** The files of the metadata directory, by the hash that names them. */
  type Files = map<u64, Entry>

  /** The record `load` returns for the file `key`: a missing or undecodable file reads as the default. */
  function Loaded(files: Files, key: u64): Metadata {
    if key in files && files[key].Decodable? then files[key].record else Default
  }

  /** `stored >= candidate` with an absent marker below every marker: `update` then writes nothing. */
  predicate Covers(stored: Option<ReadMarker>, candidate: ReadMarker) {
    stored.Some? && stored.value.dateTime >= candidate.dateTime
  }

  /** The directory after `save` wrote `record` to the file `key`. */
  function SaveStep(files: Files, key: u64, record: Metadata): (files': Files)
    ensures Loaded(files', key) == record
    ensures files' - {key} == files - {key}
  {
    files[key := Decodable(record)]
  }

  /**
   * The directory after a successful `update` of the file `key` with
   * `candidate`: the stored marker becomes the larger of the two (an absent
   * marker counts as the smallest), the unread trigger is kept, no other file
   * changes, and nothing is written when the stored marker already covers the
   * candidate.
   */
  function UpdateStep(files: Files, key: u64, candidate: ReadMarker): (files': Files)
    ensures Covers(Loaded(files, key).readMarker, candidate) ==> files' == files
    ensures var before, after := Loaded(files, key).readMarker, Loaded(files', key).readMarker;
      && after.Some?
      && after.value.dateTime >= candidate.dateTime
      && (before.Some? ==> after.value.dateTime >= before.value.dateTime)
      && (after == before || after.value == candidate)
    ensures Loaded(files', key).lastTriggersUnread == Loaded(files, key).lastTriggersUnread
    ensures files' - {key} == files - {key}
  {
    var current := Loaded(files, key);
    if Covers(current.readMarker, candidate) then files
    else files[key := Decodable(Metadata(Some(candidate), current.lastTriggersUnread))]
  }

  /** The directory after successful updates of the file `key` with each candidate in turn. */
  function UpdateAll(files: Files, key: u64, candidates: seq<ReadMarker>): Files
    decreases |candidates|
  {
    if candidates == [] then files
    else UpdateAll(UpdateStep(files, key, candidates[0]), key, candidates[1..])
  }

  /**
   * Sequential updates leave the largest of the stored marker and all the
   * candidates, keep the unread trigger, and touch no other file.
   */
  lemma {:induction false} SequentialUpdatesKeepMaximum(files: Files, key: u64, candidates: seq<ReadMarker>)
    decreases |candidates|
    ensures var before, after := Loaded(files, key), Loaded(UpdateAll(files, key, candidates), key);
      && after.lastTriggersUnread == before.lastTriggersUnread
      && (after.readMarker.None? <==> before.readMarker.None? && candidates == [])
      && (after.readMarker.Some? ==>
            && (forall i :: 0 <= i < |candidates| ==> candidates[i].dateTime <= after.readMarker.value.dateTime)
            && (before.readMarker.Some? ==> before.readMarker.value.dateTime <= after.readMarker.value.dateTime)
            && (after.readMarker == before.readMarker || after.readMarker.value in candidates))
    ensures UpdateAll(files, key, candidates) - {key} == files - {key}
  {
    if candidates != [] {
      var next := UpdateStep(files, key, candidates[0]);
      SequentialUpdatesKeepMaximum(next, key, candidates[1..]);
      var after := Loaded(UpdateAll(files, key, candidates), key).readMarker;
      assert UpdateAll(files, key, candidates) == UpdateAll(next, key, candidates[1..]);
      forall i | 0 <= i < |candidates|
        ensures candidates[i].dateTime <= after.value.dateTime
      {
        if i > 0 {
          assert candidates[i] == candidates[1..][i - 1];
        }
      }
      assert after == Loaded(next, key).readMarker || after.value in candidates[1..];
    }
  }

  /**
   * From a store with no file for `key`, updates with markers m1 .. mn leave
   * exactly max(m1 .. mn) stored.
   */
  lemma UpdatesFromNothingEndAtMaximum(files: Files, key: u64, candidates: seq<ReadMarker>)
    requires key !in files
    requires candidates != []
    ensures var after := Loaded(UpdateAll(files, key, candidates), key).readMarker;
      && after.Some?
      && after.value in candidates
      && forall i :: 0 <= i < |candidates| ==> candidates[i].dateTime <= after.value.dateTime
  {
    SequentialUpdatesKeepMaximum(files, key, candidates);
  }

  /**
   * A write that fails after truncating the file erases its marker, and the
   * next update then stores any candidate, even one below the erased marker.
   */
  lemma TruncationLetsMarkerRegress(files: Files, key: u64, candidate: ReadMarker)
    requires Loaded(files, key).readMarker.Some?
    requires candidate.dateTime < Loaded(files, key).readMarker.value.dateTime
    ensures var after := Loaded(UpdateStep(files[key := Undecodable], key, candidate), key).readMarker;
      && after == Some(candidate)
      && after.value.dateTime < Loaded(files, key).readMarker.value.dateTime
  {
  }

  /** Repeating an update changes nothing more. */
  lemma UpdateIsIdempotent(files: Files, key: u64, candidate: ReadMarker)
    ensures UpdateStep(UpdateStep(files, key, candidate), key, candidate) == UpdateStep(files, key, candidate)
  {
    // follows from the contract of UpdateStep alone
  }

  /**
   * The metadata directory and the environment `load`, `save` and `update`
   * reach: whether `dir_path()` resolves, how `fs::write` ends, and
   * the hash that names files (`seahash::hash` of the name's bytes).
   */
  class MetadataStore {
    var files: Files
    var dirAvailable: bool
    var writeOutcome: WriteOutcome
    const hash: string -> u64

    constructor (hash: string -> u64, files: Files, dirAvailable: bool, writeOutcome: WriteOutcome)
      ensures this.hash == hash && this.files == files
      ensures this.dirAvailable == dirAvailable && this.writeOutcome == writeOutcome
    {
      this.hash := hash;
      this.files := files;
      this.dirAvailable := dirAvailable;
      this.writeOutcome := writeOutcome;
    }

    /** The file `path` resolves `(server, kind)` to, once the directory is known. */
    function KeyOf(server: string, kind: Kind): u64 {
      hash(CanonicalName(server, kind))
    }

    /** `path`: fails when the metadata directory cannot be resolved. */
    function Path(server: string, kind: Kind): (r: Result<u64>)
      reads this
      ensures r.Err? <==> !dirAvailable
      ensures r.Err? ==> r.error == DirUnavailable
      ensures r.Ok? ==> r.value == hash(CanonicalName(server, kind))
    {
      if dirAvailable then Ok(KeyOf(server, kind)) else Err(DirUnavailable)
    }

    /**
     * `fs::write`: replaces the whole file; on failure the file is either as
     * it was or truncated to bytes that do not decode.
     */
    method Write(key: u64, record: Metadata) returns (r: Result<()>)
      modifies this`files
      ensures r == if writeOutcome.Completes? then Ok(()) else Err(WriteFailed)
      ensures r.Ok? ==> files == SaveStep(old(files), key, record)
      ensures r.Err? ==> files == old(files) || files == old(files)[key := Undecodable]
      ensures writeOutcome.FailsBeforeTruncating? ==> files == old(files)
      ensures writeOutcome.FailsAfterTruncating? ==>
        files == old(files)[key := Undecodable] && Loaded(files, key) == Default
      ensures files - {key} == old(files) - {key}
    {
      match writeOutcome
      case Completes =>
        files := files[key := Decodable(record)];
        r := Ok(());
      case FailsBeforeTruncating =>
        r := Err(WriteFailed);
      case FailsAfterTruncating =>
        files := files[key := Undecodable];
        r := Err(WriteFailed);
    }

    /**
     * `load`: the record in the file for `(server, kind)`, or the default one
     * when the file is missing or does not decode; an error only when the
     * directory cannot be resolved.
     */
    method Load(server: string, kind: Kind) returns (r: Result<Metadata>)
      ensures r.Err? <==> !dirAvailable
      ensures r.Err? ==> r.error == DirUnavailable
      ensures r.Ok? ==>
        var key := KeyOf(server, kind);
        && (key !in files || files[key].Undecodable? ==> r.value == Default)
        && (key in files && files[key].Decodable? ==> r.value == files[key].record)
      ensures r.Ok? ==> r.value == Loaded(files, KeyOf(server, kind))
    {
      var path := Path(server, kind);
      if path.Err? {
        return Err(path.error);
      }
      if path.value in files {
        match files[path.value]
        case Decodable(record) => r := Ok(record);
        case Undecodable => r := Ok(Default);
      } else {
        r := Ok(Default);
      }
    }

    /**
     * `save`: overwrites the file for `(server, kind)` with the given marker
     * and the newest unread trigger among `messages`, whatever it held.
     */
    method Save(server: string, kind: Kind, messages: seq<Message>, readMarker: Option<ReadMarker>)
      returns (r: Result<()>)
      modifies this`files
      ensures r == if !dirAvailable then Err(DirUnavailable)
                   else if !writeOutcome.Completes? then Err(WriteFailed) else Ok(())
      ensures var key := KeyOf(server, kind);
        && (r.Ok? ==>
              && files == SaveStep(old(files), key, Metadata(readMarker, LatestTriggersUnread(messages)))
              && Loaded(files, key) == Metadata(readMarker, LatestTriggersUnread(messages)))
        && (!dirAvailable || writeOutcome.FailsBeforeTruncating? ==> files == old(files))
        && (dirAvailable && writeOutcome.FailsAfterTruncating? ==>
              files == old(files)[key := Undecodable] && Loaded(files, key) == Default)
        && files - {key} == old(files) - {key}
    {
      var record := Metadata(readMarker, LatestTriggersUnread(messages));
      var path := Path(server, kind);
      if path.Err? {
        return Err(path.error);
      }
      r := Write(path.value, record);
    }

    /**
     * `update`: raises the stored marker of `(server, kind)` to `readMarker`
     * and keeps its unread trigger; writes nothing when the stored marker is
     * already at or after `readMarker`.
     */
    method Update(server: string, kind: Kind, readMarker: ReadMarker) returns (r: Result<()>)
      modifies this`files
      ensures var key := KeyOf(server, kind);
        && (!dirAvailable ==> r == Err(DirUnavailable) && files == old(files))
        && (dirAvailable && Covers(Loaded(old(files), key).readMarker, readMarker) ==>
              r == Ok(()) && files == old(files))
        && (dirAvailable && !Covers(Loaded(old(files), key).readMarker, readMarker) ==>
              && r == (if writeOutcome.Completes? then Ok(()) else Err(WriteFailed))
              && (writeOutcome.FailsBeforeTruncating? ==> files == old(files))
              && (writeOutcome.FailsAfterTruncating? ==>
                    files == old(files)[key := Undecodable] && Loaded(files, key) == Default))
        && (r.Ok? ==> files == UpdateStep(old(files), key, readMarker))
        && (r.Err? ==> files == old(files) || files == old(files)[key := Undecodable])
        && files - {key} == old(files) - {key}
    {
      var loaded := Load(server, kind);
      if loaded.Err? {
        return Err(loaded.error);
      }
      var metadata := loaded.value;
      if metadata.readMarker.Some? && metadata.readMarker.value.dateTime >= readMarker.dateTime {
        return Ok(());
      }
      var record := Metadata(Some(readMarker), metadata.lastTriggersUnread);
      var path := Path(server, kind);
      // `load` has already resolved the directory, so resolving it again succeeds
      assert path.Ok?;
      r := Write(path.value, record);
    }
  }

  /**
   * The scenario of a channel read up to 2024-01-01T00:00:00.000Z and then
   * offered an hour earlier: the marker stays at the later instant (instants
   * in milliseconds since the epoch).
   */
  method MarkerDoesNotRegress(hash: string -> u64) {
    var store := new MetadataStore(hash, map[], true, Completes);
    var newYear := ReadMarker(1704067200000);
    var hourBefore := ReadMarker(1704063600000);
    var key := store.KeyOf("serverX", Channel("#general"));
    var first := store.Update("serverX", Channel("#general"), newYear);
    assert Loaded(store.files, key).readMarker == Some(newYear);
    var second := store.Update("serverX", Channel("#general"), hourBefore);
    assert second == Ok(());
    assert Loaded(store.files, key).readMarker == Some(newYear);
  }
}
