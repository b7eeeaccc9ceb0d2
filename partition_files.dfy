/**
 * The labels folder: one JSON file per application partition, named after the
 * sanitized application name. A file is represented by what json.load makes of
 * it; I/O outcomes are parameters.
 */
module PartitionFiles {
  import opened Options
  import opened FingerPrintReader
  import opened AppNames
  import opened KeyCodec

  /** The labels of one application: fingerprint to label text. */
  type Partition = map<Fingerprint, string>

  /**
   * The JSON object of a partition file. `appName` is None when the key is
   * absent; `labels` is None when its value is not an object (an absent "labels"
   * reads as the empty object).
   */
  datatype Document = Document(appName: Option<string>, labels: Option<map<Json, string>>)

  /** A partition file. Unreadable: it cannot be opened, is not JSON, or is not a JSON object. */
  datatype File = Unreadable | Doc(doc: Document)

  /**
   * How a file operation ends. OpenFailed: open (or os.remove) raised, nothing
   * changed. WriteFailed: the file was opened for writing, so truncated, and
   * json.dump raised: what is left does not parse.
   */
  datatype IoOutcome = Completed | OpenFailed | WriteFailed

  /** The labels folder, keyed by file stem (the file name without ".json"). */
  class LabelsFolder {
    var files: map<string, File>

    constructor (files: map<string, File>)
      ensures this.files == files
    {
      this.files := files;
    }
  }

  /** The partition _loadApp reads for an application from the folder's files. */
  function ReadPartition(files: map<string, File>, appName: string): Partition
  {
    var stem := SanitizeAppName(appName);
    if stem !in files then map[]
    else
      match files[stem]
      case Unreadable => map[]
      case Doc(doc) =>
        match doc.labels
        case None => map[]
        case Some(stored) => DecodeLabels(stored).GetOr(map[])
  }

  /** The document _saveApp writes for a non-empty partition. */
  function SavedDocument(appName: string, labels: Partition): Document
  {
    Document(Some(appName), Some(EncodeLabels(labels)))
  }

  /**
   * The folder after _saveApp: an empty partition removes the file (when it
   * exists and the removal goes through); a non-empty one rewrites it.
   */
  function SavedFiles(files: map<string, File>, appName: string, labels: Partition, io: IoOutcome): (r: map<string, File>)
    ensures forall stem | stem in r :: stem in files || stem == SanitizeAppName(appName)
    ensures forall stem | stem in files && stem != SanitizeAppName(appName) :: stem in r && r[stem] == files[stem]
  {
    var stem := SanitizeAppName(appName);
    if labels == map[] then
      if stem in files && io == Completed then files - {stem} else files
    else
      match io
      case Completed => files[stem := Doc(SavedDocument(appName, labels))]
      case OpenFailed => files
      case WriteFailed => files[stem := Unreadable]
  }

  /**
   * The folder after clear()'s loop has saved an empty partition for each of
   * `apps` in turn; `io` gives each removal's outcome.
   */
  function ClearedFiles(files: map<string, File>, apps: seq<string>, io: string -> IoOutcome): map<string, File>
    decreases |apps|
  {
    if apps == [] then files
    else
      var last := apps[|apps| - 1];
      SavedFiles(ClearedFiles(files, apps[..|apps| - 1], io), last, map[], io(last))
  }

  // ---------------------------------------------------------------------------
  // Properties of the partition files.

  /**
   * Reading is all or nothing: a non-empty partition holds exactly the entries
   * stored in the file, and a single key that fails to decode empties it.
   */
  lemma ReadAllOrNothing(files: map<string, File>, appName: string)
    ensures var stem := SanitizeAppName(appName);
      ReadPartition(files, appName) != map[] ==>
        && stem in files && files[stem].Doc? && files[stem].doc.labels.Some?
        && EncodeLabels(ReadPartition(files, appName)) == files[stem].doc.labels.value
    ensures var stem := SanitizeAppName(appName);
      (&& stem in files && files[stem].Doc? && files[stem].doc.labels.Some?
       && exists t | t in files[stem].doc.labels.value :: KeyFromString(t).None?) ==>
        ReadPartition(files, appName) == map[]
  {
    var stem := SanitizeAppName(appName);
    if stem in files && files[stem].Doc? && files[stem].doc.labels.Some? {
      var stored := files[stem].doc.labels.value;
      DecodeLabelsSucceeds(stored);
      if DecodeLabels(stored).Some? {
        StoredLabelsRoundTrip(stored);
      }
    }
  }

  /**
   * A completed save is read back intact, under any name that shares the file
   * (in particular the name it was saved under).
   */
  lemma SaveThenRead(files: map<string, File>, appName: string, other: string, labels: Partition)
    requires SanitizeAppName(other) == SanitizeAppName(appName)
    ensures ReadPartition(SavedFiles(files, appName, labels, Completed), other) == labels
  {
    var r := SavedFiles(files, appName, labels, Completed);
    if labels != map[] {
      SavedDocumentRead(files, appName, other, labels);
      LabelsRoundTrip(labels);
    } else {
      assert SanitizeAppName(appName) !in r;
    }
  }

  /** A completed non-empty save leaves, under the shared file name, exactly the stored labels object. */
  lemma SavedDocumentRead(files: map<string, File>, appName: string, other: string, labels: Partition)
    requires SanitizeAppName(other) == SanitizeAppName(appName) && labels != map[]
    ensures ReadPartition(SavedFiles(files, appName, labels, Completed), other)
      == DecodeLabels(EncodeLabels(labels)).GetOr(map[])
  {
    var stored := EncodeLabels(labels);
    var r := files[SanitizeAppName(appName) := Doc(Document(Some(appName), Some(stored)))];
    assert SavedFiles(files, appName, labels, Completed) == r;
    ReadStored(r, other, stored);
  }

  /** A file whose labels object is present reads as that object, decoded. */
  lemma ReadStored(files: map<string, File>, appName: string, stored: map<Json, string>)
    requires SanitizeAppName(appName) in files
    requires files[SanitizeAppName(appName)].Doc? && files[SanitizeAppName(appName)].doc.labels == Some(stored)
    ensures ReadPartition(files, appName) == DecodeLabels(stored).GetOr(map[])
  {
  }

  /** Saving an empty partition never writes: it only removes the application's file, when the removal goes through. */
  lemma EmptySaveOnlyRemoves(files: map<string, File>, appName: string, io: IoOutcome)
    ensures var r := SavedFiles(files, appName, map[], io);
      && (forall stem | stem in r :: stem in files && r[stem] == files[stem])
      && (io == Completed ==> SanitizeAppName(appName) !in r)
      && (io != Completed ==> r == files)
  {
  }

  /** A save that fails after opening leaves a file the next load reads as empty. */
  lemma FailedWriteLosesPartition(files: map<string, File>, appName: string, labels: Partition)
    requires labels != map[]
    ensures ReadPartition(SavedFiles(files, appName, labels, WriteFailed), appName) == map[]
    ensures ReadPartition(SavedFiles(files, appName, labels, OpenFailed), appName) == ReadPartition(files, appName)
  {
  }

  /** One more turn of clear()'s loop saves one more empty partition. */
  lemma ClearedFilesStep(files: map<string, File>, apps: seq<string>, i: nat, io: string -> IoOutcome)
    requires i < |apps|
    ensures ClearedFiles(files, apps[..i + 1], io)
      == SavedFiles(ClearedFiles(files, apps[..i], io), apps[i], map[], io(apps[i]))
  {
    var done := apps[..i + 1];
    assert done[..|done| - 1] == apps[..i] && done[|done| - 1] == apps[i];
  }

  /** clear()'s saves never write a file: every file left is one that was there, unchanged. */
  lemma {:induction false} ClearedFilesOnlyRemove(files: map<string, File>, apps: seq<string>, io: string -> IoOutcome)
    ensures forall stem | stem in ClearedFiles(files, apps, io) ::
      stem in files && ClearedFiles(files, apps, io)[stem] == files[stem]
    decreases |apps|
  {
    if apps != [] {
      var init := apps[..|apps| - 1];
      ClearedFilesOnlyRemove(files, init, io);
      EmptySaveOnlyRemoves(ClearedFiles(files, init, io), apps[|apps| - 1], io(apps[|apps| - 1]));
    }
  }

  /** When every removal goes through, no cleared application keeps a file. */
  lemma {:induction false} ClearedFilesRemoveAll(files: map<string, File>, apps: seq<string>, io: string -> IoOutcome)
    requires forall a | a in apps :: io(a) == Completed
    ensures forall a | a in apps :: SanitizeAppName(a) !in ClearedFiles(files, apps, io)
    decreases |apps|
  {
    if apps != [] {
      var init := apps[..|apps| - 1];
      var last := apps[|apps| - 1];
      assert forall a | a in init :: a in apps;
      ClearedFilesRemoveAll(files, init, io);
      var prev := ClearedFiles(files, init, io);
      EmptySaveOnlyRemoves(prev, last, io(last));
      forall a | a in apps ensures SanitizeAppName(a) !in ClearedFiles(files, apps, io) {
        if a != last {
          assert a in init by {
            var i :| 0 <= i < |apps| && apps[i] == a;
            assert i < |apps| - 1 && init[i] == a;
          }
        }
      }
    }
  }
}
