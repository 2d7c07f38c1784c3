/**
 * `handle_audio_upload_logic` of Backend/services.py: an uploaded recording is saved under
 * a temporary name, its start is read from the name, and the AUDIO_RECORDING row with the
 * same start is updated (keeping its id) or a new row is inserted; a superseded file is
 * deleted, the temporary file is renamed to its final name, and on any failure the
 * temporary file is removed. The database calls `get_audio_entry_by_time`,
 * `update_audio_data` and `insert_audio_data` act on an in-memory table; whether a write
 * fails, and with which message, is an input.
 */
module AudioUpload {
  import opened Wrappers
  import opened Calendar
  import opened AudioMetadata
  import opened TimeFormat

  /** A row of AUDIO_RECORDING; the start and end are epoch seconds, NULL as None. */
  datatype AudioRow = AudioRow(id: nat, fileName: string, filePath: Path, start: Option<int>,
                               end: Option<int>, duration: nat)

  /** The exception that ends an upload; its text is what the handler returns. */
  datatype Failure =
    | UnreadableDate                  // "Could not read date from file."
    | NoStart                         // the TypeError of subscripting format_timestamp's None
    | StartOutOfRange                 // the ValueError of datetime.fromtimestamp
    | DatabaseError(message: string)  // the message update/insert_audio_data gave back
    | FinalPathIsDirectory            // os.remove on the final path raised
    | TempFileMissing                 // os.rename found no temporary file

  /** `(True, {"id": .., "filename": ..})` or `(False, str(e))`. */
  datatype UploadResult = Uploaded(id: nat, filename: string) | Rejected(failure: Failure)

  /** The files and directories and the audio table, as one value. */
  datatype Library = Library(disk: Disk, table: seq<AudioRow>, nextId: nat)

  function FinalPath(directory: Path, filename: string): Path
  {
    Join(directory, filename)
  }

  function TempPath(directory: Path, filename: string): Path
  {
    Join(directory, "temp_" + filename)
  }

  /** The temporary path is never the final path: it is at least five characters longer. */
  lemma TempPathIsNotFinal(directory: Path, filename: string)
    ensures |TempPath(directory, filename)| >= |FinalPath(directory, filename)| + 5
  {
    assert ("temp_" + filename)[0] == 't';
  }

  /** `get_audio_entry_by_time`: the first row whose start is the given second. */
  function FindByStart(table: seq<AudioRow>, start: int): (r: Option<nat>)
    ensures r.Some? ==> r.value < |table| && table[r.value].start == Some(start)
    ensures r.Some? ==> forall j :: 0 <= j < r.value ==> table[j].start != Some(start)
    ensures r.None? ==> forall j :: 0 <= j < |table| ==> table[j].start != Some(start)
  {
    if table == [] then None
    else if table[0].start == Some(start) then Some(0)
    else
      match FindByStart(table[1..], start)
      case None => None
      case Some(k) => Some(k + 1)
  }

  /**
   * The lookup is by the `YYYY-MM-DD HH:MM:SS` text of the start: two starts that are
   * both shown have the same text exactly when they are the same second.
   */
  lemma SameStartText(a: int, b: int)
    requires FormatTimestamp(IntNumber(a)).Formatted? && FormatTimestamp(IntNumber(b)).Formatted?
    ensures FormatTimestamp(IntNumber(a)).timestamp == FormatTimestamp(IntNumber(b)).timestamp <==> a == b
  {
    if FormatTimestamp(IntNumber(a)).timestamp == FormatTimestamp(IntNumber(b)).timestamp {
      FormatTimestampInjective(a, b);
    }
  }

  /** `os.remove(p)` of a file; nothing else changes. */
  function RemoveFile(disk: Disk, p: Path): Disk
  {
    disk.(files := disk.files - {p})
  }

  /** `makedirs(AUDIO_DIRECTORY)` when it is missing, then `file.save(temp_path)`. */
  function Saved(lib: Library, directory: Path, filename: string, upload: Blob): Library
  {
    var disk := if Exists(lib.disk, directory) then lib.disk
                else lib.disk.(dirs := lib.disk.dirs + {directory});
    lib.(disk := disk.(files := disk.files[TempPath(directory, filename) := upload]))
  }

  /** What `extract_audio_metadata(temp_path)` (the `YYYYMMDD_HHMMSS` reader) makes of the saved file. */
  function UploadMetadata(lib: Library, directory: Path, filename: string, upload: Blob): Option<Metadata>
  {
    ExtractAudioMetadata(Saved(lib, directory, filename, upload).disk, TempPath(directory, filename), Compact)
  }

  /** The `except` branch: the temporary file is removed and the failure returned. */
  function Abort(lib: Library, temp: Path, failure: Failure): (Library, UploadResult)
  {
    (lib.(disk := RemoveFile(lib.disk, temp)), Rejected(failure))
  }

  /** Step 4: whatever file holds the final path is removed, then the temporary file is renamed. */
  function Publish(lib: Library, temp: Path, final: Path, id: nat, filename: string): (Library, UploadResult)
  {
    if final !in lib.disk.files && final in lib.disk.dirs then Abort(lib, temp, FinalPathIsDirectory)
    else
      var cleared := lib.(disk := RemoveFile(lib.disk, final));
      if temp !in cleared.disk.files then Abort(cleared, temp, TempFileMissing)
      else
        var files := cleared.disk.files[final := cleared.disk.files[temp]] - {temp};
        (cleared.(disk := cleared.disk.(files := files)), Uploaded(id, filename))
  }

  /** The row `update_audio_data`/`insert_audio_data` write for the uploaded file. */
  function RowFor(id: nat, filename: string, final: Path, m: Metadata): AudioRow
  {
    AudioRow(id, filename, final, m.start, m.end, m.duration)
  }

  /** The old file goes when it is set, is a file, and is not the final path. */
  predicate RemovesOldFile(disk: Disk, oldPath: Path, final: Path)
  {
    oldPath != [] && oldPath in disk.files && oldPath != final
  }

  /** Step 3: update the row with the same start, keeping its id, or insert a new one. */
  function Store(lib: Library, temp: Path, final: Path, filename: string, m: Metadata,
                 dbError: Option<string>): (Library, UploadResult)
    requires m.start.Some?
  {
    match FindByStart(lib.table, m.start.value)
    case Some(i) =>
      var existing := lib.table[i];
      var cleaned := if RemovesOldFile(lib.disk, existing.filePath, final)
                     then lib.(disk := RemoveFile(lib.disk, existing.filePath)) else lib;
      if dbError.Some? then Abort(cleaned, temp, DatabaseError(dbError.value))
      else
        var updated := cleaned.(table := cleaned.table[i := RowFor(existing.id, filename, final, m)]);
        Publish(updated, temp, final, existing.id, filename)
    case None =>
      if dbError.Some? then Abort(lib, temp, DatabaseError(dbError.value))
      else
        var inserted := lib.(table := lib.table + [RowFor(lib.nextId, filename, final, m)],
                             nextId := lib.nextId + 1);
        Publish(inserted, temp, final, lib.nextId, filename)
  }

  /** The whole upload, from the library before to the library after and the handler's answer. */
  function Upload(lib: Library, directory: Path, filename: string, upload: Blob,
                  dbError: Option<string>): (Library, UploadResult)
  {
    var temp := TempPath(directory, filename);
    var saved := Saved(lib, directory, filename, upload);
    var metadata := UploadMetadata(lib, directory, filename, upload);
    if metadata.None? then Abort(saved, temp, UnreadableDate)
    else if metadata.value.start.None? then Abort(saved, temp, NoStart)
    else if !FormatTimestamp(IntNumber(metadata.value.start.value)).Formatted? then
      Abort(saved, temp, StartOutOfRange)
    else Store(saved, temp, FinalPath(directory, filename), filename, metadata.value, dbError)
  }

  // ---------------------------------------------------------------------------------------
  // The handler as it runs: a library whose files and table change step by step
  // ---------------------------------------------------------------------------------------

  class AudioLibrary {
    var disk: Disk
    var table: seq<AudioRow>
    var nextId: nat
    const audioDirectory: Path

    function State(): Library
      reads this
    {
      Library(disk, table, nextId)
    }

    constructor (audioDirectory: Path, disk: Disk, table: seq<AudioRow>, nextId: nat)
      ensures this.audioDirectory == audioDirectory
      ensures State() == Library(disk, table, nextId)
    {
      this.audioDirectory := audioDirectory;
      this.disk := disk;
      this.table := table;
      this.nextId := nextId;
    }

    /** The `except` branch. */
    method Fail(temp: Path, failure: Failure) returns (r: UploadResult)
      modifies this
      ensures (State(), r) == Abort(old(State()), temp, failure)
    {
      if Exists(disk, temp) {
        disk := RemoveFile(disk, temp);
      } else {
        assert disk.files - {temp} == disk.files;
      }
      r := Rejected(failure);
    }

    /** Step 4: clear the final path, then rename the temporary file onto it. */
    method Finish(temp: Path, final: Path, id: nat, filename: string) returns (r: UploadResult)
      modifies this
      ensures (State(), r) == Publish(old(State()), temp, final, id, filename)
    {
      if Exists(disk, final) {
        if final !in disk.files {
          r := Fail(temp, FinalPathIsDirectory);
          return;
        }
        disk := RemoveFile(disk, final);
      } else {
        assert disk.files - {final} == disk.files;
      }
      if temp !in disk.files {
        r := Fail(temp, TempFileMissing);
        return;
      }
      var blob := disk.files[temp];
      disk := disk.(files := disk.files[final := blob] - {temp});
      r := Uploaded(id, filename);
    }

    /** Step 3: the update of the row with the same start, or the insert. */
    method Record(temp: Path, final: Path, filename: string, m: Metadata, dbError: Option<string>)
      returns (r: UploadResult)
      requires m.start.Some?
      modifies this
      ensures (State(), r) == Store(old(State()), temp, final, filename, m, dbError)
    {
      var existing := FindByStart(table, m.start.value);
      if existing.Some? {
        var i := existing.value;
        var id := table[i].id;
        var oldPath := table[i].filePath;
        if oldPath != [] && Exists(disk, oldPath) && oldPath != final {
          if oldPath in disk.files {
            disk := RemoveFile(disk, oldPath);
          }
        }
        if dbError.Some? {
          r := Fail(temp, DatabaseError(dbError.value));
          return;
        }
        table := table[i := RowFor(id, filename, final, m)];
        r := Finish(temp, final, id, filename);
      } else {
        if dbError.Some? {
          r := Fail(temp, DatabaseError(dbError.value));
          return;
        }
        var id := nextId;
        table := table + [RowFor(id, filename, final, m)];
        nextId := nextId + 1;
        r := Finish(temp, final, id, filename);
      }
    }

    method HandleUpload(filename: string, upload: Blob, dbError: Option<string>) returns (r: UploadResult)
      modifies this
      ensures (State(), r) == Upload(old(State()), audioDirectory, filename, upload, dbError)
    {
      if !Exists(disk, audioDirectory) {
        disk := disk.(dirs := disk.dirs + {audioDirectory});
      }
      var final := FinalPath(audioDirectory, filename);
      var temp := TempPath(audioDirectory, filename);
      disk := disk.(files := disk.files[temp := upload]);
      assert State() == Saved(old(State()), audioDirectory, filename, upload);

      var metadata := ExtractAudioMetadata(disk, temp, Compact);
      if metadata.None? {
        r := Fail(temp, UnreadableDate);
        return;
      }
      if metadata.value.start.None? {
        r := Fail(temp, NoStart);
        return;
      }
      var formatted := FormatTimestamp(IntNumber(metadata.value.start.value));
      if !formatted.Formatted? {
        r := Fail(temp, StartOutOfRange);
        return;
      }
      r := Record(temp, final, filename, metadata.value, dbError);
    }
  }

  // ---------------------------------------------------------------------------------------
  // What an upload guarantees
  // ---------------------------------------------------------------------------------------

  /** Ids are distinct and below the next id to hand out. */
  predicate ValidIds(lib: Library)
  {
    && (forall i, j :: 0 <= i < j < |lib.table| ==> lib.table[i].id != lib.table[j].id)
    && (forall i :: 0 <= i < |lib.table| ==> lib.table[i].id < lib.nextId)
  }

  /** No two rows share a start. */
  predicate UniqueStarts(table: seq<AudioRow>)
  {
    forall i, j :: 0 <= i < j < |table| && table[i].start.Some? ==> table[i].start != table[j].start
  }

  /** The rename step touches only the disk; it succeeds unless the final path is a directory or the temporary file is gone. */
  lemma PublishMeaning(lib: Library, temp: Path, final: Path, id: nat, filename: string)
    requires temp != final
    ensures var (after, r) := Publish(lib, temp, final, id, filename);
            && after.table == lib.table && after.nextId == lib.nextId && after.disk.dirs == lib.disk.dirs
            && (r.Uploaded? <==> (final in lib.disk.files || final !in lib.disk.dirs) && temp in lib.disk.files)
            && (r.Uploaded? ==> && r == Uploaded(id, filename)
                                && final in after.disk.files && after.disk.files[final] == lib.disk.files[temp]
                                && temp !in after.disk.files
                                && forall p :: p != final && p != temp ==>
                                     (p in after.disk.files <==> p in lib.disk.files)
                                     && (p in after.disk.files ==> after.disk.files[p] == lib.disk.files[p]))
            && (r.Rejected? ==> after.disk.files.Keys <= lib.disk.files.Keys - {temp})
  {
  }

  /** The saved upload is in place under the temporary name before anything else happens. */
  lemma SavedMeaning(lib: Library, directory: Path, filename: string, upload: Blob)
    ensures var saved := Saved(lib, directory, filename, upload);
            && saved.table == lib.table && saved.nextId == lib.nextId
            && saved.disk.files == lib.disk.files[TempPath(directory, filename) := upload]
            && Exists(saved.disk, directory)
  {
  }

  /**
   * A start read from an upload's name is always a date `datetime` accepts, so the
   * `format_timestamp` step never fails and the StartOutOfRange branch is never taken.
   */
  lemma UploadStartIsShown(lib: Library, directory: Path, filename: string, upload: Blob)
    ensures var m := UploadMetadata(lib, directory, filename, upload);
            m.Some? && m.value.start.Some? ==> FormatTimestamp(IntNumber(m.value.start.value)).Formatted?
  {
    var disk := Saved(lib, directory, filename, upload).disk;
    var temp := TempPath(directory, filename);
    var m := UploadMetadata(lib, directory, filename, upload);
    if m.Some? && m.value.start.Some? {
      ExtractAudioMetadataStart(disk, temp, Compact);
      var root := StripExtension(Basename(temp));
      StartFromNameMeaning(root, Compact);
      var i :| IsLeftmostMatch(root, i, Compact) && ValidDateTime(FieldsAt(root, i, Compact))
               && StartFromName(root, Compact).epoch == EpochOf(FieldsAt(root, i, Compact));
      FormatTimestampOfDateTime(FieldsAt(root, i, Compact));
    }
  }

  /**
   * An upload without a readable date is refused: the temporary file is removed, no other
   * file and no row changes.
   */
  lemma UploadWithoutStart(lib: Library, directory: Path, filename: string, upload: Blob,
                           dbError: Option<string>)
    requires var m := UploadMetadata(lib, directory, filename, upload); m.None? || m.value.start.None?
    ensures var (after, r) := Upload(lib, directory, filename, upload, dbError);
            && r.Rejected? && (r.failure == UnreadableDate || r.failure == NoStart)
            && after.table == lib.table && after.nextId == lib.nextId
            && after.disk.files == lib.disk.files - {TempPath(directory, filename)}
  {
    var temp := TempPath(directory, filename);
    assert lib.disk.files[temp := upload] - {temp} == lib.disk.files - {temp};
  }

  /**
   * When the database write fails nothing is inserted or updated, no file is added, and the
   * temporary file is gone; the superseded file of a same-start row may already be deleted.
   */
  lemma UploadDatabaseError(lib: Library, directory: Path, filename: string, upload: Blob,
                            dbError: Option<string>)
    requires dbError.Some?
    ensures var (after, r) := Upload(lib, directory, filename, upload, dbError);
            && r.Rejected?
            && after.table == lib.table && after.nextId == lib.nextId
            && after.disk.files.Keys <= lib.disk.files.Keys - {TempPath(directory, filename)}
  {
    var temp := TempPath(directory, filename);
    var saved := Saved(lib, directory, filename, upload);
    SavedMeaning(lib, directory, filename, upload);
    var m := UploadMetadata(lib, directory, filename, upload);
    if m.Some? && m.value.start.Some? && FormatTimestamp(IntNumber(m.value.start.value)).Formatted? {
      var final := FinalPath(directory, filename);
      assert Upload(lib, directory, filename, upload, dbError)
          == Store(saved, temp, final, filename, m.value, dbError);
      match FindByStart(saved.table, m.value.start.value)
      case Some(i) =>
        var existing := saved.table[i];
        var cleaned := if RemovesOldFile(saved.disk, existing.filePath, final)
                       then saved.(disk := RemoveFile(saved.disk, existing.filePath)) else saved;
        assert cleaned.disk.files.Keys <= saved.disk.files.Keys;
      case None =>
    }
  }

  /** The first row with the start of the upload, if any: the row an upload supersedes. */
  function Superseded(lib: Library, m: Metadata): Option<nat>
    requires m.start.Some?
  {
    FindByStart(lib.table, m.start.value)
  }

  /** With a readable start the upload goes on to the database step on the saved library. */
  lemma UploadStores(lib: Library, directory: Path, filename: string, upload: Blob, dbError: Option<string>)
    requires var m := UploadMetadata(lib, directory, filename, upload); m.Some? && m.value.start.Some?
    ensures Upload(lib, directory, filename, upload, dbError)
         == Store(Saved(lib, directory, filename, upload), TempPath(directory, filename),
                  FinalPath(directory, filename), filename, UploadMetadata(lib, directory, filename, upload).value, dbError)
  {
    UploadStartIsShown(lib, directory, filename, upload);
  }

  /**
   * An upload with a readable start is stored exactly when the database write succeeds, the
   * final path is not a directory, and the superseded row's file is not the temporary file
   * itself (which the clean-up of the old file would delete).
   */
  lemma UploadSucceedsWhen(lib: Library, directory: Path, filename: string, upload: Blob,
                           dbError: Option<string>)
    requires var m := UploadMetadata(lib, directory, filename, upload); m.Some? && m.value.start.Some?
    ensures var m := UploadMetadata(lib, directory, filename, upload).value;
            var saved := Saved(lib, directory, filename, upload).disk;
            var final := FinalPath(directory, filename);
            var found := Superseded(lib, m);
            var stored := Upload(lib, directory, filename, upload, dbError).1.Uploaded?;
            stored <==> (&& dbError.None?
                         && (final in saved.files || final !in saved.dirs)
                         && (found.None? || lib.table[found.value].filePath != TempPath(directory, filename)))
  {
    var m := UploadMetadata(lib, directory, filename, upload).value;
    var temp := TempPath(directory, filename);
    var final := FinalPath(directory, filename);
    var saved := Saved(lib, directory, filename, upload);
    UploadStores(lib, directory, filename, upload, dbError);
    SavedMeaning(lib, directory, filename, upload);
    TempPathIsNotFinal(directory, filename);
    if dbError.None? {
      match Superseded(lib, m)
      case Some(i) =>
        var existing := saved.table[i];
        var cleaned := if RemovesOldFile(saved.disk, existing.filePath, final)
                       then saved.(disk := RemoveFile(saved.disk, existing.filePath)) else saved;
        var updated := cleaned.(table := cleaned.table[i := RowFor(existing.id, filename, final, m)]);
        PublishMeaning(updated, temp, final, existing.id, filename);
      case None =>
        var inserted := saved.(table := saved.table + [RowFor(saved.nextId, filename, final, m)],
                               nextId := saved.nextId + 1);
        PublishMeaning(inserted, temp, final, saved.nextId, filename);
    }
  }

  /**
   * After a successful upload the file sits under its final name with the uploaded content,
   * the temporary file is gone, a superseded file elsewhere is deleted and every other file
   * is as it was; the row with the upload's start was updated in place keeping its id, or,
   * when there was none, a row with the next id was appended.
   */
  lemma UploadSucceeded(lib: Library, directory: Path, filename: string, upload: Blob,
                        dbError: Option<string>)
    requires Upload(lib, directory, filename, upload, dbError).1.Uploaded?
    ensures var m := UploadMetadata(lib, directory, filename, upload);
            m.Some? && m.value.start.Some? && dbError.None?
    ensures var (after, r) := Upload(lib, directory, filename, upload, dbError);
            var m := UploadMetadata(lib, directory, filename, upload).value;
            var final := FinalPath(directory, filename);
            var temp := TempPath(directory, filename);
            && r.filename == filename
            && final in after.disk.files && after.disk.files[final] == upload
            && temp !in after.disk.files
            && match Superseded(lib, m)
               case Some(i) =>
                 var oldPath := lib.table[i].filePath;
                 && r.id == lib.table[i].id
                 && after.table == lib.table[i := RowFor(lib.table[i].id, filename, final, m)]
                 && after.nextId == lib.nextId
                 && (oldPath != [] && oldPath != final ==> oldPath !in after.disk.files)
                 && (forall p :: p != final && p != temp && p != oldPath ==>
                       (p in after.disk.files <==> p in lib.disk.files)
                       && (p in after.disk.files ==> after.disk.files[p] == lib.disk.files[p]))
               case None =>
                 && r.id == lib.nextId
                 && after.table == lib.table + [RowFor(lib.nextId, filename, final, m)]
                 && after.nextId == lib.nextId + 1
                 && (forall p :: p != final && p != temp ==>
                       (p in after.disk.files <==> p in lib.disk.files)
                       && (p in after.disk.files ==> after.disk.files[p] == lib.disk.files[p]))
  {
    var temp := TempPath(directory, filename);
    var final := FinalPath(directory, filename);
    var saved := Saved(lib, directory, filename, upload);
    var m' := UploadMetadata(lib, directory, filename, upload);
    if m'.None? || m'.value.start.None? {
      UploadWithoutStart(lib, directory, filename, upload, dbError);
    } else if dbError.Some? {
      UploadDatabaseError(lib, directory, filename, upload, dbError);
    } else {
      var m := m'.value;
      UploadStores(lib, directory, filename, upload, dbError);
      SavedMeaning(lib, directory, filename, upload);
      TempPathIsNotFinal(directory, filename);
      match Superseded(lib, m)
      case Some(i) =>
        var existing := saved.table[i];
        var cleaned := if RemovesOldFile(saved.disk, existing.filePath, final)
                       then saved.(disk := RemoveFile(saved.disk, existing.filePath)) else saved;
        var updated := cleaned.(table := cleaned.table[i := RowFor(existing.id, filename, final, m)]);
        PublishMeaning(updated, temp, final, existing.id, filename);
      case None =>
        var inserted := saved.(table := saved.table + [RowFor(saved.nextId, filename, final, m)],
                               nextId := saved.nextId + 1);
        PublishMeaning(inserted, temp, final, saved.nextId, filename);
    }
  }

  /**
   * Whatever the outcome, the table is either untouched, or has the superseded row replaced
   * under its own id, or has one row with the next id appended; the database step is not
   * undone when the rename fails afterwards.
   */
  lemma UploadTable(lib: Library, directory: Path, filename: string, upload: Blob,
                    dbError: Option<string>)
    ensures var after := Upload(lib, directory, filename, upload, dbError).0;
            var m := UploadMetadata(lib, directory, filename, upload);
            var final := FinalPath(directory, filename);
            || (after.table == lib.table && after.nextId == lib.nextId)
            || (&& m.Some? && m.value.start.Some? && Superseded(lib, m.value).Some?
                && var i := Superseded(lib, m.value).value;
                   && after.table == lib.table[i := RowFor(lib.table[i].id, filename, final, m.value)]
                   && after.nextId == lib.nextId)
            || (&& m.Some? && m.value.start.Some? && Superseded(lib, m.value).None?
                && after.table == lib.table + [RowFor(lib.nextId, filename, final, m.value)]
                && after.nextId == lib.nextId + 1)
  {
    var m' := UploadMetadata(lib, directory, filename, upload);
    if m'.None? || m'.value.start.None? {
      UploadWithoutStart(lib, directory, filename, upload, dbError);
    } else if dbError.Some? {
      UploadDatabaseError(lib, directory, filename, upload, dbError);
    } else {
      var m := m'.value;
      var temp := TempPath(directory, filename);
      var final := FinalPath(directory, filename);
      var saved := Saved(lib, directory, filename, upload);
      UploadStores(lib, directory, filename, upload, dbError);
      SavedMeaning(lib, directory, filename, upload);
      TempPathIsNotFinal(directory, filename);
      match Superseded(lib, m)
      case Some(i) =>
        var existing := saved.table[i];
        var cleaned := if RemovesOldFile(saved.disk, existing.filePath, final)
                       then saved.(disk := RemoveFile(saved.disk, existing.filePath)) else saved;
        var updated := cleaned.(table := cleaned.table[i := RowFor(existing.id, filename, final, m)]);
        PublishMeaning(updated, temp, final, existing.id, filename);
      case None =>
        var inserted := saved.(table := saved.table + [RowFor(saved.nextId, filename, final, m)],
                               nextId := saved.nextId + 1);
        PublishMeaning(inserted, temp, final, saved.nextId, filename);
    }
  }

  /** Replacing a row under its own id keeps the ids valid. */
  lemma IdsAfterReplace(lib: Library, i: nat, row: AudioRow)
    requires ValidIds(lib) && i < |lib.table| && row.id == lib.table[i].id
    ensures ValidIds(lib.(table := lib.table[i := row]))
  {
  }

  /** Appending a row with the next id, then advancing the next id, keeps the ids valid. */
  lemma IdsAfterAppend(lib: Library, row: AudioRow)
    requires ValidIds(lib) && row.id == lib.nextId
    ensures ValidIds(lib.(table := lib.table + [row], nextId := lib.nextId + 1))
  {
  }

  /** Uploads keep the ids distinct and below the next id. */
  lemma UploadKeepsIds(lib: Library, directory: Path, filename: string, upload: Blob,
                       dbError: Option<string>)
    requires ValidIds(lib)
    ensures ValidIds(Upload(lib, directory, filename, upload, dbError).0)
  {
    var after := Upload(lib, directory, filename, upload, dbError).0;
    var m := UploadMetadata(lib, directory, filename, upload);
    var final := FinalPath(directory, filename);
    UploadTable(lib, directory, filename, upload, dbError);
    if after.table == lib.table && after.nextId == lib.nextId {
      assert after == lib.(disk := after.disk);
    } else if m.Some? && m.value.start.Some? && Superseded(lib, m.value).Some? {
      var i := Superseded(lib, m.value).value;
      IdsAfterReplace(lib, i, RowFor(lib.table[i].id, filename, final, m.value));
    } else {
      IdsAfterAppend(lib, RowFor(lib.nextId, filename, final, m.value));
    }
  }

  /** Replacing a row by one with the same start keeps the starts unique. */
  lemma StartsAfterReplace(table: seq<AudioRow>, i: nat, row: AudioRow)
    requires UniqueStarts(table) && i < |table| && row.start == table[i].start
    ensures UniqueStarts(table[i := row])
  {
    var after := table[i := row];
    forall a, b | 0 <= a < b < |after| && after[a].start.Some?
      ensures after[a].start != after[b].start
    {
      if a != i && b != i {
        assert after[a] == table[a] && after[b] == table[b];
      } else if a == i {
        assert after[b] == table[b];
      } else {
        assert after[a] == table[a];
      }
    }
  }

  /** Appending a row whose start no row has keeps the starts unique. */
  lemma StartsAfterAppend(table: seq<AudioRow>, row: AudioRow)
    requires UniqueStarts(table) && forall j :: 0 <= j < |table| ==> table[j].start != row.start
    ensures UniqueStarts(table + [row])
  {
  }

  /**
   * Uploads keep at most one row per start, and after a stored upload exactly one row has
   * its start.
   */
  lemma UploadKeepsStartsUnique(lib: Library, directory: Path, filename: string, upload: Blob,
                                dbError: Option<string>)
    requires UniqueStarts(lib.table)
    ensures UniqueStarts(Upload(lib, directory, filename, upload, dbError).0.table)
    ensures var (after, r) := Upload(lib, directory, filename, upload, dbError);
            var m := UploadMetadata(lib, directory, filename, upload);
            r.Uploaded? ==> m.Some? && exists k :: 0 <= k < |after.table| && after.table[k].start == m.value.start
  {
    var after := Upload(lib, directory, filename, upload, dbError).0;
    var m := UploadMetadata(lib, directory, filename, upload);
    var final := FinalPath(directory, filename);
    UploadTable(lib, directory, filename, upload, dbError);
    if after.table == lib.table && after.nextId == lib.nextId {
    } else if m.Some? && m.value.start.Some? && Superseded(lib, m.value).Some? {
      var i := Superseded(lib, m.value).value;
      StartsAfterReplace(lib.table, i, RowFor(lib.table[i].id, filename, final, m.value));
      assert after.table[i].start == m.value.start;
    } else {
      StartsAfterAppend(lib.table, RowFor(lib.nextId, filename, final, m.value));
      assert after.table[|lib.table|].start == m.value.start;
    }
    if Upload(lib, directory, filename, upload, dbError).1.Uploaded? {
      UploadSucceeded(lib, directory, filename, upload, dbError);
    }
  }
}
