/**
 * LabelStore: the in-memory cache of label partitions, one per application,
 * loaded lazily from the labels folder and written through on every change.
 *
 * The first half states each operation's effect on a Snapshot of the store's
 * state (the cache, the cache's key order, the set of loaded names); the class
 * in the second half updates that state in place and is proved against it.
 */
module Labeler {
  import opened Options
  import opened FingerPrintReader
  import opened AppNames
  import opened KeyCodec
  import opened PartitionFiles
  import opened Overlays

  // ---------------------------------------------------------------------------
  // _getAppFromFingerprint

  /**
   * The store looks an application up by the text of the fingerprint's "app"
   * field (an integer there would reach sanitizeAppName and fail on .lower()).
   */
  predicate AppIsText(fp: Fingerprint)
  {
    LastLookup(fp, "app").None? || LastLookup(fp, "app").value.Str?
  }

  /** dict(fingerprint).get("app", "unknown"): the last "app" pair wins. */
  function AppFromFingerprint(fp: Fingerprint): (app: string)
    requires AppIsText(fp)
    ensures LastLookup(fp, "app") == None ==> app == "unknown"
    ensures LastLookup(fp, "app").Some? ==> LastLookup(fp, "app") == Some(Str(app))
  {
    match Lookup(FingerprintToDict(Some(fp)), "app")
    case None => "unknown"
    case Some(v) => v.s
  }

  /** An element's fingerprint is filed under the element's application name, or "unknown" when it could not be read. */
  lemma AppOfElement(obj: Element)
    ensures AppIsText(GetObjectFingerprint(obj))
    ensures AppFromFingerprint(GetObjectFingerprint(obj)) == obj.appName.GetOr("unknown")
  {
    var fp := GetObjectFingerprint(obj);
    FieldValues(obj);
    DictOfExact(fp);
    DictOfLookup(fp, "app");
  }

  // ---------------------------------------------------------------------------
  // The store's state and the effect of each step on it.

  /**
   * `_cache` as a map plus its key order (dict iteration order), and
   * `_loadedApps`.
   */
  datatype Snapshot = Snapshot(cache: map<string, Partition>, appOrder: seq<string>, loaded: set<string>)

  /**
   * What the store keeps true: every cached application has been loaded, and
   * the key order lists each cached application exactly once.
   */
  ghost predicate Coherent(s: Snapshot)
  {
    && s.cache.Keys <= s.loaded
    && (forall a :: a in s.cache <==> a in s.appOrder)
    && (forall i, j | 0 <= i < j < |s.appOrder| :: s.appOrder[i] != s.appOrder[j])
  }

  /** self._cache.get(app, {}) */
  function PartitionOf(s: Snapshot, app: string): Partition
  {
    if app in s.cache then s.cache[app] else map[]
  }

  /** self._cache[app] = labels: a new key goes to the end of the order. */
  function Assign(s: Snapshot, app: string, labels: Partition): Snapshot
  {
    Snapshot(s.cache[app := labels], if app in s.cache then s.appOrder else s.appOrder + [app], s.loaded)
  }

  /** _loadApp: a name not yet loaded is marked loaded and its partition read from its file. */
  function Load(s: Snapshot, files: map<string, File>, app: string): (r: Snapshot)
    ensures r.loaded == s.loaded + {app}
    ensures app !in s.loaded ==> app in r.cache
  {
    if app in s.loaded then s
    else Assign(s.(loaded := s.loaded + {app}), app, ReadPartition(files, app))
  }

  /** The label get() returns: the entry for `fp` in its application's partition. */
  function LabelOf(s: Snapshot, fp: Fingerprint): Option<string>
    requires AppIsText(fp)
  {
    var p := PartitionOf(s, AppFromFingerprint(fp));
    if fp in p then Some(p[fp]) else None
  }

  /** The application a partition file belongs to: its "appName", or else its stem. */
  function FileApp(doc: Document, stem: string): string
  {
    doc.appName.GetOr(stem)
  }

  /**
   * One turn of _loadAllApps' loop: a readable file whose application is not
   * loaded marks it loaded, and then caches its labels unless they fail to decode.
   */
  function LoadFile(s: Snapshot, files: map<string, File>, stem: string): (r: Snapshot)
    ensures s.loaded <= r.loaded
    ensures forall a | a in s.loaded :: (a in r.cache <==> a in s.cache)
    ensures forall a | a in s.loaded && a in s.cache :: r.cache[a] == s.cache[a]
  {
    if stem !in files || files[stem].Unreadable? then s
    else
      var doc := files[stem].doc;
      var app := FileApp(doc, stem);
      if app in s.loaded then s
      else
        var marked := s.(loaded := s.loaded + {app});
        if doc.labels.Some? && DecodeLabels(doc.labels.value).Some? then
          Assign(marked, app, DecodeLabels(doc.labels.value).value)
        else marked
  }

  /** _loadAllApps over the folder's listing (the stems of its ".json" files, in os.listdir order). */
  function LoadAll(s: Snapshot, files: map<string, File>, listing: seq<string>): (r: Snapshot)
    ensures s.loaded <= r.loaded
    decreases |listing|
  {
    if listing == [] then s
    else LoadFile(LoadAll(s, files, listing[..|listing| - 1]), files, listing[|listing| - 1])
  }

  /** getAll's result: result.update(labels) for each partition in cache order. */
  function Merged(cache: map<string, Partition>, order: seq<string>): Partition
    requires forall a | a in order :: a in cache
    decreases |order|
  {
    if order == [] then map[]
    else Merged(cache, order[..|order| - 1]) + cache[order[|order| - 1]]
  }

  /** getApps' result: the applications, in cache order, whose partitions are not empty. */
  function NonEmptyApps(cache: map<string, Partition>, order: seq<string>): seq<string>
    requires forall a | a in order :: a in cache
    decreases |order|
  {
    if order == [] then []
    else
      var last := order[|order| - 1];
      NonEmptyApps(cache, order[..|order| - 1]) + (if cache[last] != map[] then [last] else [])
  }

  /** The cache once clear() has emptied the partitions of `done`. */
  function Emptied(cache: map<string, Partition>, done: seq<string>): map<string, Partition>
  {
    map a | a in cache :: if a in done then map[] else cache[a]
  }

  /** The cache change set() makes once the application is loaded. */
  function SetLabel(s: Snapshot, fp: Fingerprint, labelText: string): Snapshot
    requires AppIsText(fp)
  {
    var app := AppFromFingerprint(fp);
    Assign(s, app, PartitionOf(s, app)[fp := labelText])
  }

  /** The cache change remove() makes once the application is loaded. */
  function RemoveLabel(s: Snapshot, fp: Fingerprint): Snapshot
    requires AppIsText(fp)
  {
    var app := AppFromFingerprint(fp);
    Assign(s, app, PartitionOf(s, app) - {fp})
  }

  // ---------------------------------------------------------------------------
  // Properties of the steps.

  lemma AssignCoherent(s: Snapshot, app: string, labels: Partition)
    requires Coherent(s) && app in s.loaded
    ensures Coherent(Assign(s, app, labels))
  {
    var r := Assign(s, app, labels);
    if app !in s.cache {
      forall i, j | 0 <= i < j < |r.appOrder| ensures r.appOrder[i] != r.appOrder[j] {
        if j == |s.appOrder| {
          assert r.appOrder[i] == s.appOrder[i];
        }
      }
    }
  }

  /**
   * Lazy load once: after _loadApp(a), `a` is loaded and the store stays
   * coherent; loading it again changes nothing, whatever the files now hold.
   */
  lemma LoadOnce(s: Snapshot, files: map<string, File>, later: map<string, File>, app: string)
    requires Coherent(s)
    ensures Coherent(Load(s, files, app))
    ensures app in Load(s, files, app).loaded
    ensures Load(Load(s, files, app), later, app) == Load(s, files, app)
  {
    if app !in s.loaded {
      AssignCoherent(s.(loaded := s.loaded + {app}), app, ReadPartition(files, app));
    }
  }

  /**
   * After set(fp, label): get(fp) returns the label, has(fp) holds, and every
   * other partition and every other key of fp's partition is as it was.
   */
  lemma SetThenGet(s: Snapshot, fp: Fingerprint, labelText: string)
    requires AppIsText(fp)
    ensures LabelOf(SetLabel(s, fp, labelText), fp) == Some(labelText)
    ensures forall a | a != AppFromFingerprint(fp) :: PartitionOf(SetLabel(s, fp, labelText), a) == PartitionOf(s, a)
    ensures var app := AppFromFingerprint(fp);
      forall k | k != fp ::
        && (k in PartitionOf(SetLabel(s, fp, labelText), app) <==> k in PartitionOf(s, app))
        && (k in PartitionOf(s, app) ==> PartitionOf(SetLabel(s, fp, labelText), app)[k] == PartitionOf(s, app)[k])
  {
  }

  /** After remove(fp): has(fp) is false and every other entry is as it was. */
  lemma RemoveThenHas(s: Snapshot, fp: Fingerprint)
    requires AppIsText(fp)
    ensures LabelOf(RemoveLabel(s, fp), fp) == None
    ensures forall a | a != AppFromFingerprint(fp) :: PartitionOf(RemoveLabel(s, fp), a) == PartitionOf(s, a)
    ensures var app := AppFromFingerprint(fp);
      forall k | k != fp ::
        && (k in PartitionOf(RemoveLabel(s, fp), app) <==> k in PartitionOf(s, app))
        && (k in PartitionOf(s, app) ==> PartitionOf(RemoveLabel(s, fp), app)[k] == PartitionOf(s, app)[k])
  {
  }

  /** Emptying partitions keeps the store coherent. */
  lemma EmptiedCoherent(s: Snapshot, done: seq<string>)
    requires Coherent(s)
    ensures Coherent(s.(cache := Emptied(s.cache, done)))
  {
    assert Emptied(s.cache, done).Keys == s.cache.Keys;
  }

  /** Before clear()'s loop has run, nothing is emptied. */
  lemma EmptiedNone(cache: map<string, Partition>, done: seq<string>)
    requires done == []
    ensures Emptied(cache, done) == cache
  {
    assert forall a | a in cache :: Emptied(cache, done)[a] == cache[a];
  }

  /** One turn of clear()'s loop empties one more partition. */
  lemma EmptiedStep(s: Snapshot, i: nat)
    requires Coherent(s) && i < |s.appOrder|
    ensures var app := s.appOrder[i];
      Assign(s.(cache := Emptied(s.cache, s.appOrder[..i])), app, map[])
        == s.(cache := Emptied(s.cache, s.appOrder[..i + 1]))
  {
    var app := s.appOrder[i];
    assert s.appOrder[..i + 1] == s.appOrder[..i] + [app];
    assert app in s.cache;
    var e := Emptied(s.cache, s.appOrder[..i]);
    assert app in e;
    assert e[app := map[]] == Emptied(s.cache, s.appOrder[..i + 1]);
  }

  /** One turn of clear()'s loop, on the cache and on the folder together. */
  lemma EmptyAllStep(loaded: Snapshot, i: nat, files0: map<string, File>, io: string -> IoOutcome,
                     before: Snapshot, after: Snapshot, filesBefore: map<string, File>, filesAfter: map<string, File>)
    requires Coherent(loaded) && i < |loaded.appOrder|
    requires before == loaded.(cache := Emptied(loaded.cache, loaded.appOrder[..i]))
    requires after == Assign(before, loaded.appOrder[i], map[])
    requires filesBefore == ClearedFiles(files0, loaded.appOrder[..i], io)
    requires filesAfter == SavedFiles(filesBefore, loaded.appOrder[i], map[], io(loaded.appOrder[i]))
    ensures after == loaded.(cache := Emptied(loaded.cache, loaded.appOrder[..i + 1]))
    ensures filesAfter == ClearedFiles(files0, loaded.appOrder[..i + 1], io)
  {
    EmptiedStep(loaded, i);
    ClearedFilesStep(files0, loaded.appOrder, i, io);
  }

  /** After clear() every cached partition is empty. */
  lemma EmptiedAll(s: Snapshot)
    requires Coherent(s)
    ensures forall a | a in Emptied(s.cache, s.appOrder) :: Emptied(s.cache, s.appOrder)[a] == map[]
    ensures Emptied(s.cache, s.appOrder).Keys == s.cache.Keys
  {
  }

  /** A load touches only the loaded application's partition. */
  lemma LoadKeepsOthers(s: Snapshot, files: map<string, File>, app: string, other: string)
    requires other != app
    ensures PartitionOf(Load(s, files, app), other) == PartitionOf(s, other)
    ensures other in Load(s, files, app).cache <==> other in s.cache
  {
  }

  lemma LoadFileCoherent(s: Snapshot, files: map<string, File>, stem: string)
    requires Coherent(s)
    ensures Coherent(LoadFile(s, files, stem))
  {
    if stem in files && files[stem].Doc? {
      var doc := files[stem].doc;
      var app := FileApp(doc, stem);
      if app !in s.loaded && doc.labels.Some? && DecodeLabels(doc.labels.value).Some? {
        AssignCoherent(s.(loaded := s.loaded + {app}), app, DecodeLabels(doc.labels.value).value);
      }
    }
  }

  lemma {:induction false} LoadAllCoherent(s: Snapshot, files: map<string, File>, listing: seq<string>)
    requires Coherent(s)
    ensures Coherent(LoadAll(s, files, listing))
    decreases |listing|
  {
    if listing != [] {
      LoadAllCoherent(s, files, listing[..|listing| - 1]);
      LoadFileCoherent(LoadAll(s, files, listing[..|listing| - 1]), files, listing[|listing| - 1]);
    }
  }

  /**
   * _loadAllApps never reloads: a name already loaded keeps its cache entry (or
   * its lack of one), and the cache order only grows at the end.
   */
  lemma {:induction false} LoadAllKeepsLoaded(s: Snapshot, files: map<string, File>, listing: seq<string>)
    ensures var r := LoadAll(s, files, listing);
      && s.loaded <= r.loaded
      && (forall a | a in s.loaded :: (a in r.cache <==> a in s.cache))
      && (forall a | a in s.loaded && a in s.cache :: r.cache[a] == s.cache[a])
      && s.appOrder <= r.appOrder
    decreases |listing|
  {
    if listing != [] {
      LoadAllKeepsLoaded(s, files, listing[..|listing| - 1]);
    }
  }

  /** After _loadAllApps, the application of every readable listed file is loaded. */
  lemma {:induction false} LoadAllMarksListed(s: Snapshot, files: map<string, File>, listing: seq<string>)
    ensures forall stem | stem in listing && stem in files && files[stem].Doc? ::
      FileApp(files[stem].doc, stem) in LoadAll(s, files, listing).loaded
    decreases |listing|
  {
    if listing != [] {
      var init := listing[..|listing| - 1];
      LoadAllMarksListed(s, files, init);
      var mid := LoadAll(s, files, init);
      assert mid.loaded <= LoadFile(mid, files, listing[|listing| - 1]).loaded;
      forall stem | stem in listing && stem in files && files[stem].Doc?
        ensures FileApp(files[stem].doc, stem) in LoadAll(s, files, listing).loaded
      {
        if stem != listing[|listing| - 1] {
          var i :| 0 <= i < |listing| && listing[i] == stem;
          assert init[i] == stem;
        }
      }
    }
  }

  /** _loadAllApps changes nothing when every readable listed file's application is already loaded. */
  lemma {:induction false} LoadAllStable(s: Snapshot, files: map<string, File>, listing: seq<string>)
    requires forall stem | stem in listing && stem in files && files[stem].Doc? :: FileApp(files[stem].doc, stem) in s.loaded
    ensures LoadAll(s, files, listing) == s
    decreases |listing|
  {
    if listing != [] {
      var init := listing[..|listing| - 1];
      assert forall stem | stem in init :: stem in listing;
      LoadAllStable(s, files, init);
    }
  }

  /** A second _loadAllApps over the same folder changes nothing. */
  lemma LoadAllIdempotent(s: Snapshot, files: map<string, File>, listing: seq<string>)
    ensures LoadAll(LoadAll(s, files, listing), files, listing) == LoadAll(s, files, listing)
  {
    LoadAllMarksListed(s, files, listing);
    LoadAllStable(LoadAll(s, files, listing), files, listing);
  }

  /**
   * A readable file of an application not yet loaded, whose labels decode, puts
   * exactly those labels in the cache under that application, at the end of
   * the cache order when it is new; every other application is untouched.
   */
  lemma LoadFileCaches(s: Snapshot, files: map<string, File>, stem: string)
    requires stem in files && files[stem].Doc? && FileApp(files[stem].doc, stem) !in s.loaded
    requires files[stem].doc.labels.Some? && DecodeLabels(files[stem].doc.labels.value).Some?
    ensures var app := FileApp(files[stem].doc, stem); var r := LoadFile(s, files, stem);
      && app in r.loaded && app in r.cache
      && r.cache[app] == DecodeLabels(files[stem].doc.labels.value).value
      && r.appOrder == (if app in s.cache then s.appOrder else s.appOrder + [app])
      && (forall a | a != app :: PartitionOf(r, a) == PartitionOf(s, a) && (a in r.cache <==> a in s.cache))
  {
  }

  /** _loadAllApps loads only the applications named by readable listed files. */
  lemma {:induction false} LoadAllOnlyListed(s: Snapshot, files: map<string, File>, listing: seq<string>)
    ensures forall a | a in LoadAll(s, files, listing).loaded ::
      a in s.loaded ||
      exists k | 0 <= k < |listing| :: listing[k] in files && files[listing[k]].Doc? && FileApp(files[listing[k]].doc, listing[k]) == a
    decreases |listing|
  {
    if listing != [] {
      var init := listing[..|listing| - 1];
      var last := listing[|listing| - 1];
      LoadAllOnlyListed(s, files, init);
      var mid := LoadAll(s, files, init);
      forall a | a in LoadAll(s, files, listing).loaded
        ensures a in s.loaded ||
          exists k | 0 <= k < |listing| :: listing[k] in files && files[listing[k]].Doc? && FileApp(files[listing[k]].doc, listing[k]) == a
      {
        if a in mid.loaded {
          if a !in s.loaded {
            var k :| 0 <= k < |init| && init[k] in files && files[init[k]].Doc? && FileApp(files[init[k]].doc, init[k]) == a;
            assert listing[k] == init[k];
          }
        } else {
          assert listing[|listing| - 1] == last;
        }
      }
    }
  }

  /**
   * _loadAllApps caches the labels on disk: for the first readable listed file
   * naming an application not yet loaded, the application ends up loaded, with
   * exactly that file's decoded labels, or with no cache entry when they fail
   * to decode.
   */
  lemma {:induction false} LoadAllFirstFile(s: Snapshot, files: map<string, File>, listing: seq<string>, i: nat)
    requires Coherent(s)
    requires i < |listing| && listing[i] in files && files[listing[i]].Doc?
    requires FileApp(files[listing[i]].doc, listing[i]) !in s.loaded
    requires forall k | 0 <= k < i && listing[k] in files && files[listing[k]].Doc? ::
      FileApp(files[listing[k]].doc, listing[k]) != FileApp(files[listing[i]].doc, listing[i])
    ensures var doc := files[listing[i]].doc; var app := FileApp(doc, listing[i]); var r := LoadAll(s, files, listing);
      && app in r.loaded
      && (doc.labels.Some? && DecodeLabels(doc.labels.value).Some? ==>
            app in r.cache && r.cache[app] == DecodeLabels(doc.labels.value).value)
      && (doc.labels.None? || DecodeLabels(doc.labels.value).None? ==> app !in r.cache)
    decreases |listing|
  {
    var stem := listing[i];
    var app := FileApp(files[stem].doc, stem);
    var init := listing[..|listing| - 1];
    var mid := LoadAll(s, files, init);
    if i == |listing| - 1 {
      LoadAllOnlyListed(s, files, init);
      LoadAllCoherent(s, files, init);
      assert forall k | 0 <= k < |init| :: init[k] == listing[k];
    } else {
      assert init[i] == stem;
      forall k | 0 <= k < i && init[k] in files && files[init[k]].Doc?
        ensures FileApp(files[init[k]].doc, init[k]) != app
      {
        assert init[k] == listing[k];
      }
      LoadAllFirstFile(s, files, init, i);
    }
  }

  /**
   * A partition file whose labels fail to decode leaves its application marked
   * loaded with no cache entry: its labels are never decoded again, _loadApp
   * never reads that file, and the application reads as having no labels.
   */
  lemma UndecodableFileStaysUnread(s: Snapshot, files: map<string, File>, stem: string, later: map<string, File>)
    requires Coherent(s)
    requires stem in files && files[stem].Doc? && FileApp(files[stem].doc, stem) !in s.loaded
    requires files[stem].doc.labels.None? || DecodeLabels(files[stem].doc.labels.value).None?
    ensures var app := FileApp(files[stem].doc, stem); var r := LoadFile(s, files, stem);
      && app in r.loaded && app !in r.cache
      && Load(r, later, app) == r
      && PartitionOf(r, app) == map[]
  {
  }

  /**
   * getAll is the union of all partitions: a fingerprint is in it exactly when
   * some partition holds it, with the label of the last such partition in cache
   * order.
   */
  lemma {:induction false} MergedUnion(cache: map<string, Partition>, order: seq<string>, fp: Fingerprint)
    requires forall a | a in order :: a in cache
    ensures fp in Merged(cache, order) <==> exists i | 0 <= i < |order| :: fp in cache[order[i]]
    ensures fp in Merged(cache, order) ==>
      exists i | 0 <= i < |order| ::
        && fp in cache[order[i]] && Merged(cache, order)[fp] == cache[order[i]][fp]
        && forall j | i < j < |order| :: fp !in cache[order[j]]
    decreases |order|
  {
    if order != [] {
      var n := |order| - 1;
      var init := order[..n];
      assert forall a | a in init :: a in order;
      MergedUnion(cache, init, fp);
      if fp in cache[order[n]] {
        assert fp in Merged(cache, order);
      } else if fp in Merged(cache, init) {
        var i :| 0 <= i < |init| && fp in cache[init[i]] && Merged(cache, init)[fp] == cache[init[i]][fp]
          && forall j | i < j < |init| :: fp !in cache[init[j]];
        assert order[i] == init[i];
        assert forall j | i < j < |order| :: fp !in cache[order[j]] by {
          forall j | i < j < |order| ensures fp !in cache[order[j]] {
            if j < n {
              assert order[j] == init[j];
            }
          }
        }
      } else {
        forall i | 0 <= i < |order| ensures fp !in cache[order[i]] {
          if i < n {
            assert order[i] == init[i];
          }
        }
      }
    }
  }

  /** getApps lists exactly the applications of the order whose partitions are not empty. */
  lemma {:induction false} NonEmptyAppsIff(cache: map<string, Partition>, order: seq<string>, app: string)
    requires forall a | a in order :: a in cache
    ensures app in NonEmptyApps(cache, order) <==> app in order && cache[app] != map[]
    decreases |order|
  {
    if order != [] {
      var init := order[..|order| - 1];
      assert forall a | a in init :: a in order;
      NonEmptyAppsIff(cache, init, app);
      assert order == init + [order[|order| - 1]];
    }
  }

  /** With every partition empty, getApps returns the empty list. */
  lemma NoAppsWhenAllEmpty(cache: map<string, Partition>, order: seq<string>)
    requires forall a | a in order :: a in cache && cache[a] == map[]
    ensures NonEmptyApps(cache, order) == []
  {
    if NonEmptyApps(cache, order) != [] {
      NonEmptyAppsIff(cache, order, NonEmptyApps(cache, order)[0]);
    }
  }

  // ---------------------------------------------------------------------------
  // The store object.

  class LabelStore {
    var cache: map<string, Partition>
    var appOrder: seq<string>
    var loadedApps: set<string>
    /** The labels folder (getLabelsFolder()). */
    const folder: LabelsFolder
    /** The module-level `_overlayCache`, shared by every store. */
    const overlays: OverlayCache

    ghost function Snap(): Snapshot
      reads this
    {
      Snapshot(cache, appOrder, loadedApps)
    }

    ghost predicate Valid()
      reads this, overlays
    {
      Coherent(Snap()) && overlays.Valid()
    }

    /** An empty store: nothing cached, nothing loaded. */
    constructor (folder: LabelsFolder, overlays: OverlayCache)
      requires overlays.Valid()
      ensures Valid() && Snap() == Snapshot(map[], [], {})
      ensures this.folder == folder && this.overlays == overlays
    {
      cache := map[];
      appOrder := [];
      loadedApps := {};
      this.folder := folder;
      this.overlays := overlays;
    }

    /** self._cache[appName] = labels */
    method AssignPartition(appName: string, labels: Partition)
      modifies this
      ensures Snap() == Assign(old(Snap()), appName, labels)
    {
      if appName !in cache {
        appOrder := appOrder + [appName];
      }
      cache := cache[appName := labels];
    }

    /** _loadApp */
    method LoadApp(appName: string)
      requires Valid()
      modifies this
      ensures Valid()
      ensures Snap() == Load(old(Snap()), folder.files, appName)
    {
      LoadOnce(Snap(), folder.files, folder.files, appName);
      if appName in loadedApps {
        return;
      }
      loadedApps := loadedApps + {appName};
      var stem := SanitizeAppName(appName);
      var labels: Partition := map[];
      if stem in folder.files {
        match folder.files[stem]
        case Unreadable =>
        case Doc(doc) =>
          if doc.labels.Some? {
            var decoded := DecodeLabels(doc.labels.value);
            if decoded.Some? {
              labels := decoded.value;
            }
          }
      }
      AssignPartition(appName, labels);
    }

    /** _saveApp: write the partition through, or remove its file when it is empty. */
    method SaveApp(appName: string, io: IoOutcome)
      modifies folder
      ensures folder.files == SavedFiles(old(folder.files), appName, PartitionOf(Snap(), appName), io)
    {
      var stem := SanitizeAppName(appName);
      var labels := if appName in cache then cache[appName] else map[];
      if labels == map[] {
        if stem in folder.files && io == Completed {
          folder.files := folder.files - {stem};
        }
        return;
      }
      match io
      case Completed =>
        folder.files := folder.files[stem := Doc(SavedDocument(appName, labels))];
      case OpenFailed =>
      case WriteFailed =>
        folder.files := folder.files[stem := Unreadable];
    }

    /** get */
    method Get(fp: Fingerprint) returns (labelText: Option<string>)
      requires Valid() && AppIsText(fp)
      modifies this
      ensures Valid()
      ensures Snap() == Load(old(Snap()), folder.files, AppFromFingerprint(fp))
      ensures labelText == LabelOf(Snap(), fp)
    {
      var appName := AppFromFingerprint(fp);
      LoadApp(appName);
      labelText := if appName in cache && fp in cache[appName] then Some(cache[appName][fp]) else None;
    }

    /** has */
    method Has(fp: Fingerprint) returns (present: bool)
      requires Valid() && AppIsText(fp)
      modifies this
      ensures Valid()
      ensures Snap() == Load(old(Snap()), folder.files, AppFromFingerprint(fp))
      ensures present == LabelOf(Snap(), fp).Some?
    {
      var appName := AppFromFingerprint(fp);
      LoadApp(appName);
      present := appName in cache && fp in cache[appName];
    }

    /**
     * set: load the application, put the label in its partition, write the
     * partition through and clear the overlay memo.
     */
    method Set(fp: Fingerprint, labelText: string, io: IoOutcome)
      requires Valid() && AppIsText(fp)
      modifies this, folder, overlays
      ensures Valid()
      ensures Snap() == SetLabel(Load(old(Snap()), old(folder.files), AppFromFingerprint(fp)), fp, labelText)
      ensures folder.files == SavedFiles(old(folder.files), AppFromFingerprint(fp), PartitionOf(Snap(), AppFromFingerprint(fp)), io)
      ensures overlays.entries == map[]
    {
      var appName := AppFromFingerprint(fp);
      LoadApp(appName);
      ghost var loaded := Snap();
      var labels := if appName in cache then cache[appName] else map[];
      AssignPartition(appName, labels[fp := labelText]);
      assert Snap() == SetLabel(loaded, fp, labelText);
      AssignCoherent(loaded, appName, labels[fp := labelText]);
      SaveApp(appName, io);
      overlays.Clear();
    }

    /**
     * remove: when the fingerprint has a label, drop it, write the partition
     * through and clear the overlay memo; otherwise change nothing but the load.
     */
    method Remove(fp: Fingerprint, io: IoOutcome) returns (removed: bool)
      requires Valid() && AppIsText(fp)
      modifies this, folder, overlays
      ensures Valid()
      ensures var app := AppFromFingerprint(fp);
        var loaded := Load(old(Snap()), old(folder.files), app);
        && removed == (fp in PartitionOf(loaded, app))
        && (removed ==>
              && Snap() == RemoveLabel(loaded, fp)
              && folder.files == SavedFiles(old(folder.files), app, PartitionOf(Snap(), app), io)
              && overlays.entries == map[])
        && (!removed ==>
              && Snap() == loaded
              && folder.files == old(folder.files)
              && overlays.entries == old(overlays.entries))
    {
      var appName := AppFromFingerprint(fp);
      LoadApp(appName);
      ghost var loaded := Snap();
      if appName in cache && fp in cache[appName] {
        AssignPartition(appName, cache[appName] - {fp});
        AssignCoherent(loaded, appName, PartitionOf(loaded, appName) - {fp});
        SaveApp(appName, io);
        overlays.Clear();
        return true;
      }
      return false;
    }

    /** getLabelsForApp: a copy of the application's partition. */
    method GetLabelsForApp(appName: string) returns (labels: Partition)
      requires Valid()
      modifies this
      ensures Valid()
      ensures Snap() == Load(old(Snap()), folder.files, appName)
      ensures labels == PartitionOf(Snap(), appName)
    {
      LoadApp(appName);
      labels := if appName in cache then cache[appName] else map[];
    }

    /**
     * removeApp: an application with a cache entry after loading gets an empty
     * partition, whose save removes its file; otherwise nothing changes.
     */
    method RemoveApp(appName: string, io: IoOutcome) returns (removed: bool)
      requires Valid()
      modifies this, folder, overlays
      ensures Valid()
      ensures var loaded := Load(old(Snap()), old(folder.files), appName);
        && removed == (appName in loaded.cache)
        && (removed ==>
              && Snap() == Assign(loaded, appName, map[])
              && folder.files == SavedFiles(old(folder.files), appName, map[], io)
              && overlays.entries == map[])
        && (!removed ==>
              && Snap() == loaded
              && folder.files == old(folder.files)
              && overlays.entries == old(overlays.entries))
      ensures PartitionOf(Snap(), appName) == map[]
    {
      LoadApp(appName);
      if appName in cache {
        AssignPartition(appName, map[]);
        SaveApp(appName, io);
        overlays.Clear();
        return true;
      }
      return false;
    }

    /** One turn of _loadAllApps' loop: the file `stem` read in, unless its application is loaded. */
    method LoadStem(stem: string)
      modifies this
      ensures Snap() == LoadFile(old(Snap()), folder.files, stem)
    {
      if stem in folder.files && folder.files[stem].Doc? {
        var doc := folder.files[stem].doc;
        var appName := doc.appName.GetOr(stem);
        if appName !in loadedApps {
          loadedApps := loadedApps + {appName};
          if doc.labels.Some? {
            var decoded := DecodeLabels(doc.labels.value);
            if decoded.Some? {
              AssignPartition(appName, decoded.value);
            }
          }
        }
      }
    }

    /** _loadAllApps over the folder's listing. */
    method LoadAllApps(listing: seq<string>)
      requires Valid()
      modifies this
      ensures Valid()
      ensures Snap() == LoadAll(old(Snap()), folder.files, listing)
    {
      var i := 0;
      while i < |listing|
        invariant 0 <= i <= |listing|
        invariant Valid()
        invariant Snap() == LoadAll(old(Snap()), folder.files, listing[..i])
      {
        var stem := listing[i];
        ghost var before := Snap();
        LoadStem(stem);
        LoadFileCoherent(before, folder.files, stem);
        assert listing[..i + 1][..i] == listing[..i];
        i := i + 1;
      }
      assert listing[..|listing|] == listing;
    }

    /** getAll: every partition merged in cache order. */
    method GetAll(listing: seq<string>) returns (result: Partition)
      requires Valid()
      modifies this
      ensures Valid()
      ensures Snap() == LoadAll(old(Snap()), folder.files, listing)
      ensures result == Merged(cache, appOrder)
    {
      LoadAllApps(listing);
      result := map[];
      var i := 0;
      while i < |appOrder|
        invariant 0 <= i <= |appOrder|
        invariant result == Merged(cache, appOrder[..i])
      {
        assert appOrder[..i + 1][..i] == appOrder[..i];
        result := result + cache[appOrder[i]];
        i := i + 1;
      }
      assert appOrder[..|appOrder|] == appOrder;
    }

    /** getAllByApp: a copy of the whole cache. */
    method GetAllByApp(listing: seq<string>) returns (byApp: map<string, Partition>)
      requires Valid()
      modifies this
      ensures Valid()
      ensures Snap() == LoadAll(old(Snap()), folder.files, listing)
      ensures byApp == cache
    {
      LoadAllApps(listing);
      byApp := cache;
    }

    /** getApps: the applications with labels, in cache order. */
    method GetApps(listing: seq<string>) returns (apps: seq<string>)
      requires Valid()
      modifies this
      ensures Valid()
      ensures Snap() == LoadAll(old(Snap()), folder.files, listing)
      ensures apps == NonEmptyApps(cache, appOrder)
    {
      LoadAllApps(listing);
      apps := [];
      var i := 0;
      while i < |appOrder|
        invariant 0 <= i <= |appOrder|
        invariant apps == NonEmptyApps(cache, appOrder[..i])
      {
        assert appOrder[..i + 1][..i] == appOrder[..i];
        var app := appOrder[i];
        if cache[app] != map[] {
          apps := apps + [app];
        }
        i := i + 1;
      }
      assert appOrder[..|appOrder|] == appOrder;
    }

    /** One turn of clear()'s loop: an empty partition for `app`, then _saveApp. */
    method EmptyApp(app: string, io: IoOutcome)
      modifies this, folder
      ensures Snap() == Assign(old(Snap()), app, map[])
      ensures folder.files == SavedFiles(old(folder.files), app, map[], io)
    {
      AssignPartition(app, map[]);
      SaveApp(app, io);
    }

    /** clear()'s loop: each application in key order gets an empty partition, saved. */
    method EmptyAll(io: string -> IoOutcome)
      requires Coherent(Snap())
      modifies this, folder
      ensures Snap() == old(Snap()).(cache := Emptied(old(cache), old(appOrder)))
      ensures folder.files == ClearedFiles(old(folder.files), old(appOrder), io)
    {
      ghost var loaded := Snap();
      ghost var files0 := folder.files;
      var apps := appOrder;
      var i := 0;
      EmptiedNone(loaded.cache, apps[..0]);
      while i < |apps|
        invariant 0 <= i <= |apps|
        invariant Snap() == loaded.(cache := Emptied(loaded.cache, apps[..i]))
        invariant folder.files == ClearedFiles(files0, apps[..i], io)
      {
        var app := apps[i];
        ghost var before, filesBefore := Snap(), folder.files;
        EmptyApp(app, io(app));
        EmptyAllStep(loaded, i, files0, io, before, Snap(), filesBefore, folder.files);
        i := i + 1;
      }
      assert apps[..|apps|] == apps;
    }

    /**
     * clear: load everything, then give each cached application an empty
     * partition and save it (removing its file); finally clear the overlay memo.
     */
    method Clear(listing: seq<string>, io: string -> IoOutcome)
      requires Valid()
      modifies this, folder, overlays
      ensures Valid()
      ensures var loaded := LoadAll(old(Snap()), old(folder.files), listing);
        && Snap() == loaded.(cache := Emptied(loaded.cache, loaded.appOrder))
        && folder.files == ClearedFiles(old(folder.files), loaded.appOrder, io)
      ensures overlays.entries == map[]
    {
      LoadAllApps(listing);
      ghost var loaded := Snap();
      EmptyAll(io);
      EmptiedCoherent(loaded, loaded.appOrder);
      overlays.Clear();
    }
  }
}
