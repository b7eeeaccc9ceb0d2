/**
 * Sequences of store calls, as the add-on's dialogs and scripts make them, with
 * what they are guaranteed to observe.
 */
module Scenarios {
  import opened Options
  import opened FingerPrintReader
  import opened AppNames
  import opened PartitionFiles
  import opened Overlays
  import opened KeyCodec
  import opened Labeler

  /** A label set through one store is found by a store created afterwards on the same folder. */
  method LabelSurvivesRestart(folder: LabelsFolder, overlays: OverlayCache, fp: Fingerprint, labelText: string)
    returns (found: Option<string>)
    requires overlays.Valid() && AppIsText(fp)
    modifies folder, overlays
    ensures found == Some(labelText)
  {
    var store := new LabelStore(folder, overlays);
    store.Set(fp, labelText, Completed);
    SetThenGet(Load(Snapshot(map[], [], {}), old(folder.files), AppFromFingerprint(fp)), fp, labelText);
    var app := AppFromFingerprint(fp);
    SaveThenRead(old(folder.files), app, app, PartitionOf(store.Snap(), app));
    var restarted := new LabelStore(folder, overlays);
    found := restarted.Get(fp);
  }

  /**
   * On a fresh labels folder, a label set through one store is all that
   * getAll() returns on a store created afterwards: _loadAllApps reads the
   * partition back from its file.
   */
  method LabelShowsInGetAll(folder: LabelsFolder, overlays: OverlayCache, fp: Fingerprint, labelText: string)
    returns (all: Partition)
    requires overlays.Valid() && AppIsText(fp)
    requires folder.files == map[]
    modifies folder, overlays
    ensures folder.files.Keys == {SanitizeAppName(AppFromFingerprint(fp))}
    ensures all == map[fp := labelText]
  {
    var app := AppFromFingerprint(fp);
    SetInEmptyFolder(folder, overlays, fp, labelText);
    all := GetAllOfOneFile(folder, overlays, app, SanitizeAppName(app), map[fp := labelText]);
  }

  /** getAll() on a new store over a folder holding one saved partition returns that partition. */
  method GetAllOfOneFile(folder: LabelsFolder, overlays: OverlayCache, app: string, stem: string, labels: Partition)
    returns (all: Partition)
    requires overlays.Valid()
    requires folder.files == map[stem := Doc(SavedDocument(app, labels))]
    modifies overlays
    ensures folder.files == old(folder.files)
    ensures all == labels
  {
    var store := new LabelStore(folder, overlays);
    LoadAllOneFile(app, stem, labels);
    all := store.GetAll([stem]);
  }

  /** set() through a new store on an empty folder leaves one file, holding just that label. */
  method SetInEmptyFolder(folder: LabelsFolder, overlays: OverlayCache, fp: Fingerprint, labelText: string)
    requires overlays.Valid() && AppIsText(fp)
    requires folder.files == map[]
    modifies folder, overlays
    ensures overlays.Valid()
    ensures var app := AppFromFingerprint(fp);
      folder.files == map[SanitizeAppName(app) := Doc(SavedDocument(app, map[fp := labelText]))]
  {
    var store := new LabelStore(folder, overlays);
    store.Set(fp, labelText, Completed);
    SetOnEmptyStore(fp, labelText);
  }

  /** set() on an empty store and an empty folder writes one file holding just that label. */
  lemma SetOnEmptyStore(fp: Fingerprint, labelText: string)
    requires AppIsText(fp)
    ensures var app := AppFromFingerprint(fp);
      var s := SetLabel(Load(Snapshot(map[], [], {}), map[], app), fp, labelText);
      && PartitionOf(s, app) == map[fp := labelText]
      && SavedFiles(map[], app, map[fp := labelText], Completed)
         == map[SanitizeAppName(app) := Doc(SavedDocument(app, map[fp := labelText]))]
  {
    var app := AppFromFingerprint(fp);
    var p: Partition := map[fp := labelText];
    LoadFromEmptyFolder(app);
    assert fp in p;
    SaveToEmptyFolder(app, p);
  }

  /** _loadApp on an empty store and an empty folder caches an empty partition. */
  lemma LoadFromEmptyFolder(app: string)
    ensures Load(Snapshot(map[], [], {}), map[], app) == Snapshot(map[app := map[]], [app], {app})
  {
    assert ReadPartition(map[], app) == map[];
  }

  /** _saveApp of a non-empty partition into an empty folder creates its one file. */
  lemma SaveToEmptyFolder(app: string, labels: Partition)
    requires labels != map[]
    ensures SavedFiles(map[], app, labels, Completed) == map[SanitizeAppName(app) := Doc(SavedDocument(app, labels))]
  {
  }

  /** _loadAllApps over a folder holding one saved partition caches exactly that partition. */
  lemma LoadAllOneFile(app: string, stem: string, labels: Partition)
    ensures var r := LoadAll(Snapshot(map[], [], {}), map[stem := Doc(SavedDocument(app, labels))], [stem]);
      && r.cache == map[app := labels] && r.appOrder == [app]
      && Merged(r.cache, r.appOrder) == labels
  {
    var files := map[stem := Doc(SavedDocument(app, labels))];
    var s0 := Snapshot(map[], [], {});
    LoadAllSingle(s0, files, stem);
    LoadOneFile(app, stem, labels);
    MergedSingle(map[app := labels], app);
  }

  lemma LoadAllSingle(s: Snapshot, files: map<string, File>, stem: string)
    ensures LoadAll(s, files, [stem]) == LoadFile(s, files, stem)
  {
    assert [stem][..0] == [];
  }

  lemma MergedSingle(cache: map<string, Partition>, app: string)
    requires app in cache
    ensures Merged(cache, [app]) == cache[app]
  {
    assert [app][..0] == [];
  }

  lemma LoadOneFile(app: string, stem: string, labels: Partition)
    ensures var r := LoadFile(Snapshot(map[], [], {}), map[stem := Doc(SavedDocument(app, labels))], stem);
      r.cache == map[app := labels] && r.appOrder == [app]
  {
    var files := map[stem := Doc(SavedDocument(app, labels))];
    var s0 := Snapshot(map[], [], {});
    LabelsRoundTrip(labels);
    LoadFileCaches(s0, files, stem);
    var r := LoadFile(s0, files, stem);
    assert forall a | a in r.cache :: a == app;
  }

  /**
   * After clear() every cached partition is empty and getApps() returns []; when
   * every removal goes through, no cleared application keeps a file.
   */
  method ClearLeavesNoApps(store: LabelStore, listing: seq<string>, io: string -> IoOutcome)
    returns (apps: seq<string>)
    requires store.Valid()
    modifies store, store.folder, store.overlays
    ensures apps == []
    ensures forall a | a in store.cache :: store.cache[a] == map[]
    ensures (forall a :: io(a) == Completed) ==>
      forall a | a in store.cache :: SanitizeAppName(a) !in store.folder.files
  {
    ghost var s0 := store.Snap();
    ghost var files0 := store.folder.files;
    store.Clear(listing, io);
    ghost var loaded := LoadAll(s0, files0, listing);
    LoadAllCoherent(s0, files0, listing);
    EmptiedAll(loaded);
    ClearedFilesOnlyRemove(files0, loaded.appOrder, io);
    if forall a :: io(a) == Completed {
      ClearedFilesRemoveAll(files0, loaded.appOrder, io);
    }
    LoadAllMarksListed(s0, files0, listing);
    var files1 := store.folder.files;
    assert forall stem | stem in listing && stem in files1 && files1[stem].Doc? ::
      FileApp(files1[stem].doc, stem) in store.Snap().loaded;
    LoadAllStable(store.Snap(), files1, listing);
    apps := store.GetApps(listing);
    NoAppsWhenAllEmpty(store.cache, store.appOrder);
  }

  /**
   * Two application names with one sanitized form share a file. Emptying one
   * of them deletes that file, so a later store no longer finds a label set
   * for the other, although it was never removed.
   */
  method SharedFileLosesLabels(folder: LabelsFolder, overlays: OverlayCache, fp: Fingerprint, other: Fingerprint)
    returns (found: Option<string>)
    requires overlays.Valid() && AppIsText(fp) && AppIsText(other)
    requires AppFromFingerprint(fp) != AppFromFingerprint(other)
    requires SanitizeAppName(AppFromFingerprint(fp)) == SanitizeAppName(AppFromFingerprint(other))
    modifies folder, overlays
    ensures found == None
  {
    SetBothThenRemoveOne(folder, overlays, fp, other);
    var restarted := new LabelStore(folder, overlays);
    found := restarted.Get(other);
  }

  /**
   * A label set for each of the two names, then removeApp on the first: the
   * removal succeeds and the shared file is gone.
   */
  method SetBothThenRemoveOne(folder: LabelsFolder, overlays: OverlayCache, fp: Fingerprint, other: Fingerprint)
    requires overlays.Valid() && AppIsText(fp) && AppIsText(other)
    requires AppFromFingerprint(fp) != AppFromFingerprint(other)
    requires SanitizeAppName(AppFromFingerprint(fp)) == SanitizeAppName(AppFromFingerprint(other))
    modifies folder, overlays
    ensures overlays.Valid()
    ensures SanitizeAppName(AppFromFingerprint(other)) !in folder.files
  {
    var app := AppFromFingerprint(fp);
    var store := new LabelStore(folder, overlays);
    store.Set(fp, "first", Completed);
    assert app in store.cache;
    store.Set(other, "second", Completed);
    assert app in store.cache;
    ghost var files2 := folder.files;
    var removed := store.RemoveApp(app, Completed);
    assert removed;
    EmptySaveOnlyRemoves(files2, app, Completed);
  }

  /** A name with an upper-case letter and its lower-case form are such a pair. */
  lemma CaseVariantsCollide(appName: string, i: nat)
    requires i < |appName| && IsUpper(appName[i])
    ensures Lower(appName) != appName
    ensures SanitizeAppName(Lower(appName)) == SanitizeAppName(appName)
  {
    assert Lower(appName)[i] != appName[i];
    CaseVariantsShareFile(appName);
  }
}
