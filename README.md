# Custom Labels: fingerprints and the partitioned label store

A Dafny model of the two non-UI components of the Custom Labels add-on for the
NVDA screen reader.

**Fingerprint construction** (`fingerPrintReader.py`) turns a UI element into an
identity key. The key is a tuple of `(name, value)` pairs sorted by field name.
Every field has a default that stands in when its attribute read fails.
`fingerprintToDict` turns the pairs back into a dictionary.

**Label store** (`labeler.py`) maps fingerprints to label text. It has these
parts:
- Partitions: one per application name, each kept in one JSON file. The file is
  named by `sanitizeAppName` of the application name.
- Lazy loading: a partition is loaded on first use, at most once.
- Write-through: every change to a partition is written to its file. The file is
  removed when the partition becomes empty.
- Bulk operations: `getAll`, `getAllByApp`, `getApps`, `removeApp`, `clear`.
- The overlay memo `_overlayCache`, which `makeLabelOverlay` fills. Every mutation
  of the store empties it.

Modules, one file each:
- `Options` (`options.dfy`): the optional value used for attribute readings and
  lookups.
- `FingerPrintReader` (`fingerprint_reader.dfy`): the element record, and
  `GetObjectFingerprint` as a total pure function. `sorted()` is modelled by an
  insertion sort on field names. A Python dict is modelled by its `items()` list
  in insertion order.
- `AppNames` (`app_names.dfy`): `sanitizeAppName`. Both regex rewrites are one
  function, `SubRuns`. `JoinedWords` is a one-pass reference for the result:
  the name's words joined by single underscores.
- `KeyCodec` (`key_codec.dfy`): `_keyToString` / `_keyFromString`, and the
  encoding of a partition's `labels` object. They work over a JSON value datatype
  that stands for the JSON text.
- `PartitionFiles` (`partition_files.dfy`): the labels folder as a class holding
  a map from file stem to file. Also the partition `_loadApp` reads, and the
  folder `_saveApp` leaves behind.
- `Overlays` (`overlays.dfy`): `_overlayCache` as a class, with
  `makeLabelOverlay`.
- `Labeler` (`label_store.dfy`): the `LabelStore` class. Each of its methods is
  proved against a function over a `Snapshot` of the store's state:
  - `_cache`, together with its key order;
  - `_loadedApps`.
- `Scenarios` (`scenarios.dfy`): call sequences and what they observe.

The store's state:
- `cache`: a `map` from application name to partition.
- `appOrder`: the dict's key order, which `getAll` and `getApps` depend on.
- `loadedApps`: a `set`.
- `folder`: the labels folder.
- `overlays`: the shared overlay memo.

I/O is modelled as follows:
- Every write and removal (`_saveApp`) takes an `IoOutcome`. `OpenFailed`
  changes nothing. `WriteFailed` leaves a truncated file that no longer parses.
- Reads take no outcome. A file that cannot be opened or parsed is part of the
  folder state: it is `Unreadable`, and stays so until it is written again.
- `os.listdir` is a parameter: the stems of the folder's `.json` files, in
  listing order.

Two consequences of the source are proved as stated.

1. The cache is keyed by the raw application name, but files are keyed by its
   sanitized form. Two names that differ only in case, for example, therefore
   share one file. `Scenarios.SharedFileLosesLabels` proves the effect: removing
   one name's labels deletes the shared file, so a later store no longer finds
   a label set for the other name, even though that label was never removed.
2. `_loadAllApps` marks an application loaded before it decodes the labels. A
   file whose labels fail to decode therefore leaves the application loaded
   with no cache entry. Its labels are never decoded again, and `_loadApp` never
   reads the file (`UndecodableFileStaysUnread`).

`removeApp` returns `True` whenever the application has a cache entry after
loading (`labeler.py:187`), even when that partition is already empty. The
model does the same.

## Model

| member | source | states |
|---|---|---|
| FingerPrintReader.GetObjectFingerprint | addon/globalPlugins/CustomLabels/fingerPrintReader.py:12-55 | the key is strictly sorted by field name, so no name repeats; it is a permutation of the collected fields; it has exactly five fields, named per backend (app, role, backend plus automationId, className for UIA, or windowClassName, windowControlID otherwise) |
| FingerPrintReader.Items | addon/globalPlugins/CustomLabels/fingerPrintReader.py:18-52 | the dict getObjectFingerprint fills, as its items in insertion order. No contract of its own; ItemsShape and FieldValues state its names and values |
| FingerPrintReader.ItemsShape | addon/globalPlugins/CustomLabels/fingerPrintReader.py:18-52 | the collected fields have distinct names and exactly the backend's name set |
| FingerPrintReader.FieldValues | addon/globalPlugins/CustomLabels/fingerPrintReader.py:20-52 | each field holds its reading or its default when the read failed ("unknown", 0, "", 0); backend is "UIA" iff the element is a UIA object, and "IA2" iff it is not |
| FingerPrintReader.SameFingerprintIff | addon/globalPlugins/CustomLabels/fingerPrintReader.py:12-55 | two elements get equal fingerprints iff they have the same backend and the same readings of that backend's fields (failed reads counting as their defaults) |
| FingerPrintReader.SortByName | addon/globalPlugins/CustomLabels/fingerPrintReader.py:55 | `sorted(fp.items())` as an insertion sort on names. No contract of its own; SortSorted and SortOfSorted state what it returns |
| FingerPrintReader.SortSorted | addon/globalPlugins/CustomLabels/fingerPrintReader.py:55 | sorting fields with distinct names gives a strictly sorted permutation of them |
| FingerPrintReader.SortOfSorted | addon/globalPlugins/CustomLabels/fingerPrintReader.py:55 | sorting an already sorted key leaves it unchanged |
| FingerPrintReader.StrLess | addon/globalPlugins/CustomLabels/fingerPrintReader.py:55 | the order `sorted` uses on field names: code point by code point, a proper prefix first. StrLessTotal and StrLessTransitive state that it is a strict total order |
| FingerPrintReader.StrLessTotal | addon/globalPlugins/CustomLabels/fingerPrintReader.py:55 | the code-point order sorted() uses on names is total on distinct strings |
| FingerPrintReader.StrLessTransitive | addon/globalPlugins/CustomLabels/fingerPrintReader.py:55 | that order is transitive |
| FingerPrintReader.FingerprintToDict | addon/globalPlugins/CustomLabels/fingerPrintReader.py:61-65 | the dict of a null or empty fingerprint is empty; otherwise each name maps to the value of its last pair, and names are distinct |
| FingerPrintReader.DictOf | addon/globalPlugins/CustomLabels/fingerPrintReader.py:64 | `dict(pairs)` as its items list, built by assigning each pair in turn. No contract of its own; DictOfLookup and DictOfExact state what it holds |
| FingerPrintReader.Put | addon/globalPlugins/CustomLabels/fingerPrintReader.py:64 | `d[name] = v` on a dict held as its items list; the same assignment fills `fp` at lines 20-52. PutMembers, PutLookup and PutDistinct state its effect |
| FingerPrintReader.PutMembers | addon/globalPlugins/CustomLabels/fingerPrintReader.py:64 | `d[name] = v` holds the new pair and otherwise only old pairs, and appends when the name is new |
| FingerPrintReader.PutLookup | addon/globalPlugins/CustomLabels/fingerPrintReader.py:64 | after `d[name] = v`, name looks up to v and every other name as before |
| FingerPrintReader.PutDistinct | addon/globalPlugins/CustomLabels/fingerPrintReader.py:64 | `d[name] = v` keeps a dict's names distinct |
| FingerPrintReader.DictOfLookup | addon/globalPlugins/CustomLabels/fingerPrintReader.py:64 | dict(pairs) looks each name up to its last pair's value and has distinct names |
| FingerPrintReader.DictOfExact | addon/globalPlugins/CustomLabels/fingerPrintReader.py:64 | dict() of pairs with distinct names keeps them as they are, in order |
| FingerPrintReader.LookupFinds | addon/globalPlugins/CustomLabels/fingerPrintReader.py:64 | in a dict with distinct names, a name looks up to v iff the pair (name, v) is present |
| FingerPrintReader.SortedRoundTrip | addon/globalPlugins/CustomLabels/fingerPrintReader.py:55-64 | for any strictly sorted key, sorting the items of its dict gives the key back |
| FingerPrintReader.FingerprintRoundTrip | addon/globalPlugins/CustomLabels/fingerPrintReader.py:55-64 | tuple(sorted(fingerprintToDict(fp).items())) == fp for every fingerprint getObjectFingerprint returns |
| FingerPrintReader.DictRoundTrip | addon/globalPlugins/CustomLabels/fingerPrintReader.py:55-64 | a dict with distinct names, sorted into a key and turned back into a dict, answers every lookup as before |
| AppNames.SanitizeAppName | addon/globalPlugins/CustomLabels/labeler.py:26-43 | "unknown" for an empty name; otherwise the result is non-empty, has no ASCII upper-case letter, no unsafe or whitespace character, no leading or trailing underscore and no two underscores in a row. SanitizeAsWords states exactly which name it is |
| AppNames.Lower | addon/globalPlugins/CustomLabels/labeler.py:36 | `appName.lower()`: same length, and no ASCII upper-case letter left |
| AppNames.IsUnsafe | addon/globalPlugins/CustomLabels/labeler.py:38 | the class `[\\/:*?"<>\|\s]`, with `\s` as the characters `str.isspace()` accepts. SanitizeAppName's contract states that no such character survives |
| AppNames.SubRuns | addon/globalPlugins/CustomLabels/labeler.py:38 | `re.sub(r'[class]+', '_', s)`: each maximal run of class characters becomes one underscore (also line 42). No contract of its own; SubRunsWords, SubRunsChars and SubRunsNoDouble state its effect |
| AppNames.Strip | addon/globalPlugins/CustomLabels/labeler.py:40 | `strip('_')`. No contract of its own; StripSlice, StripShape and StripWords state its effect |
| AppNames.SubRunsChars | addon/globalPlugins/CustomLabels/labeler.py:38 | a run rewrite writes only underscores and characters of its input outside the class |
| AppNames.SubRunsNoDouble | addon/globalPlugins/CustomLabels/labeler.py:42 | collapsing underscore runs leaves no two adjacent underscores |
| AppNames.StripShape | addon/globalPlugins/CustomLabels/labeler.py:40 | strip('_') keeps only input characters and leaves no underscore at either end |
| AppNames.StripSlice | addon/globalPlugins/CustomLabels/labeler.py:40 | strip('_') returns a slice of its input, cut only where the input has underscores, and only at the two ends |
| AppNames.JoinedWords | addon/globalPlugins/CustomLabels/labeler.py:36-43 | a one-pass reference for sanitizeAppName's result: the words of a name (its maximal runs of characters that are neither unsafe nor `_`) joined by single underscores. SanitizeAsWords ties the two together |
| AppNames.SanitizeAsWords | addon/globalPlugins/CustomLabels/labeler.py:26-43 | sanitizeAppName returns the lower-cased name's words joined by single underscores, or "unknown" when there is no word. Every character that is neither unsafe nor `_` survives, in order |
| AppNames.SanitizeTwoWords | addon/globalPlugins/CustomLabels/labeler.py:36-43 | "My App" is filed as "my_app" |
| AppNames.SubRunsWords | addon/globalPlugins/CustomLabels/labeler.py:38 | a run rewrite whose class holds no word character keeps every word and every separation between words (also line 42) |
| AppNames.StripWords | addon/globalPlugins/CustomLabels/labeler.py:40 | strip('_') keeps every word and every separation between words |
| AppNames.SafeNameWords | addon/globalPlugins/CustomLabels/labeler.py:26-43 | a name in sanitized shape is its own joined words |
| AppNames.SafeNameFixed | addon/globalPlugins/CustomLabels/labeler.py:26-43 | a name that already satisfies the output invariants is returned unchanged |
| AppNames.SanitizeIdempotent | addon/globalPlugins/CustomLabels/labeler.py:26-43 | sanitizing a sanitized name changes nothing |
| AppNames.CaseVariantsShareFile | addon/globalPlugins/CustomLabels/labeler.py:36-43 | a name and its lower-case form get the same file name |
| KeyCodec.KeyToString | addon/globalPlugins/CustomLabels/labeler.py:113-115 | `json.dumps(list(key))`: a JSON array with one item per field. KeyRoundTrip and KeyToStringInjective are its partners |
| KeyCodec.FieldFromJson | addon/globalPlugins/CustomLabels/labeler.py:119 | `tuple(item)` for one decoded item: a [text, text-or-integer] pair, otherwise a decoding failure (see "## Left out"). KeyRoundTrip and TextRoundTrip state it through KeyFromString |
| KeyCodec.KeyFromString | addon/globalPlugins/CustomLabels/labeler.py:117-119 | `tuple(tuple(item) for item in json.loads(s))`: when it decodes, the value was an array and the key has one field per item. TextRoundTrip and KeyFromStringInjective are its partners |
| KeyCodec.KeyRoundTrip | addon/globalPlugins/CustomLabels/labeler.py:113-119 | _keyFromString(_keyToString(k)) == k for every fingerprint |
| KeyCodec.TextRoundTrip | addon/globalPlugins/CustomLabels/labeler.py:113-119 | any JSON value that decodes to a key is the encoding of that key |
| KeyCodec.KeyToStringInjective | addon/globalPlugins/CustomLabels/labeler.py:113-115 | distinct fingerprints get distinct JSON encodings |
| KeyCodec.KeyFromStringInjective | addon/globalPlugins/CustomLabels/labeler.py:117-119 | distinct JSON values never decode to the same fingerprint |
| KeyCodec.EncodeLabels | addon/globalPlugins/CustomLabels/labeler.py:103-106 | the "labels" object _saveApp writes, one entry per label under its key's encoding. No contract of its own; EncodeLabelsAt and EncodeLabelsKeys state it entry by entry |
| KeyCodec.DecodeLabels | addon/globalPlugins/CustomLabels/labeler.py:79-82 | the comprehension _loadApp builds: None when any key fails to decode. No contract of its own; DecodeLabelsAt, DecodeLabelsKeys and LabelsRoundTrip state it |
| KeyCodec.EncodeLabelsAt | addon/globalPlugins/CustomLabels/labeler.py:103-106 | every label of a partition is stored under its key's encoding |
| KeyCodec.EncodeLabelsKeys | addon/globalPlugins/CustomLabels/labeler.py:103-106 | every stored JSON key is the encoding of a key of the partition |
| KeyCodec.DecodeLabelsAt | addon/globalPlugins/CustomLabels/labeler.py:77-81 | every stored label is decoded under the key its JSON key names |
| KeyCodec.DecodeLabelsKeys | addon/globalPlugins/CustomLabels/labeler.py:77-81 | every decoded key comes from a stored JSON key |
| KeyCodec.LabelsRoundTrip | addon/globalPlugins/CustomLabels/labeler.py:77-106 | the labels object _saveApp writes decodes back to exactly the cached partition |
| KeyCodec.StoredLabelsRoundTrip | addon/globalPlugins/CustomLabels/labeler.py:77-81 | a labels object that decodes at all decodes entry for entry: re-encoding gives it back |
| PartitionFiles.ReadPartition | addon/globalPlugins/CustomLabels/labeler.py:70-84 | the partition _loadApp reads from the application's file. No contract of its own; ReadAllOrNothing and SaveThenRead state it |
| PartitionFiles.SavedDocument | addon/globalPlugins/CustomLabels/labeler.py:100-106 | the `data` dict `_saveApp` writes: the application name and the encoded labels. SaveThenRead states that it reads back as the saved partition |
| PartitionFiles.SavedFiles | addon/globalPlugins/CustomLabels/labeler.py:86-111 | _saveApp touches no file other than the application's own |
| PartitionFiles.ReadAllOrNothing | addon/globalPlugins/CustomLabels/labeler.py:71-84 | a partition read from disk is either empty or holds exactly every stored entry; one key that fails to decode empties it |
| PartitionFiles.SaveThenRead | addon/globalPlugins/CustomLabels/labeler.py:64-111 | after a completed save, loading under any name that shares the file gives back exactly the saved partition (empty partitions included) |
| PartitionFiles.EmptySaveOnlyRemoves | addon/globalPlugins/CustomLabels/labeler.py:91-98 | saving an empty partition never writes: it removes the application's file when the removal completes and otherwise changes nothing |
| PartitionFiles.FailedWriteLosesPartition | addon/globalPlugins/CustomLabels/labeler.py:100-111 | a write that fails after opening leaves a file that loads as empty; one that fails to open leaves what loads unchanged |
| PartitionFiles.ClearedFiles | addon/globalPlugins/CustomLabels/labeler.py:197-199 | the folder after clear()'s loop has saved an empty partition for each application in turn. ClearedFilesStep, ClearedFilesOnlyRemove and ClearedFilesRemoveAll state its effect |
| PartitionFiles.ClearedFilesStep | addon/globalPlugins/CustomLabels/labeler.py:197-199 | one more turn of the loop is one more `_saveApp` of an empty partition |
| PartitionFiles.ClearedFilesOnlyRemove | addon/globalPlugins/CustomLabels/labeler.py:194-200 | clear()'s saves never write: every remaining file was there before, unchanged |
| PartitionFiles.ClearedFilesRemoveAll | addon/globalPlugins/CustomLabels/labeler.py:194-200 | when every removal completes, no cleared application keeps a file |
| Overlays.Overlay.constructor | addon/globalPlugins/CustomLabels/labeler.py:240-241 | the overlay class made for a text has that text as its `name` |
| Overlays.OverlayCache.constructor | addon/globalPlugins/CustomLabels/labeler.py:232 | the memo starts empty |
| Overlays.OverlayCache.MakeLabelOverlay | addon/globalPlugins/CustomLabels/labeler.py:235-244 | a cached text returns its cached overlay and changes nothing; otherwise a fresh overlay named by the text is cached and returned |
| Overlays.OverlayCache.Clear | addon/globalPlugins/CustomLabels/labeler.py:141 | `_overlayCache.clear()`, as set, remove, removeApp and clear call it (also lines 151, 190, 200): the memo is emptied |
| Overlays.SameTextSameOverlay | addon/globalPlugins/CustomLabels/labeler.py:235-244 | two requests for one text give the same overlay; after clearing, the text gets a different one |
| Labeler.AppFromFingerprint | addon/globalPlugins/CustomLabels/labeler.py:121-124 | the application is the value of the last "app" pair, or "unknown" when there is none |
| Labeler.AppOfElement | addon/globalPlugins/CustomLabels/labeler.py:121-124 | an element's fingerprint is filed under the element's application name, or "unknown" when it could not be read |
| Labeler.PartitionOf | addon/globalPlugins/CustomLabels/labeler.py:89 | `self._cache.get(appName, {})`, also at lines 159 and 182. SetThenGet, RemoveThenHas and the LabelStore method contracts state it |
| Labeler.Assign | addon/globalPlugins/CustomLabels/labeler.py:79-82 | `self._cache[appName] = labels`: a new name goes to the end of the key order. AssignCoherent states that it keeps the store coherent |
| Labeler.LabelOf | addon/globalPlugins/CustomLabels/labeler.py:130 | the value `get` returns: the fingerprint's entry in its application's partition, or None. SetThenGet and RemoveThenHas state it after set and remove |
| Labeler.FileApp | addon/globalPlugins/CustomLabels/labeler.py:213 | `data.get("appName", filename[:-5])`. LoadAllMarksListed and UndecodableFileStaysUnread state it |
| Labeler.Load | addon/globalPlugins/CustomLabels/labeler.py:64-84 | _loadApp's effect: the name is marked loaded, and a name not loaded before gets a cache entry. LoadOnce and LoadKeepsOthers state the rest |
| Labeler.LoadFile | addon/globalPlugins/CustomLabels/labeler.py:207-221 | one turn of _loadAllApps: names already loaded keep their cache entry, or their lack of one, and the loaded set only grows. LoadFileCaches states what a new file puts in the cache; UndecodableFileStaysUnread covers the failing case and LoadFileCoherent the store invariant |
| Labeler.LoadAll | addon/globalPlugins/CustomLabels/labeler.py:202-223 | _loadAllApps over the listing: the loaded set only grows. LoadAllFirstFile states which labels end up in the cache. LoadAllOnlyListed and LoadAllMarksListed state which names end up loaded. LoadAllCoherent, LoadAllKeepsLoaded and LoadAllStable state the invariants |
| Labeler.SetLabel | addon/globalPlugins/CustomLabels/labeler.py:137-139 | set()'s cache change once loaded. No contract of its own; SetThenGet states it |
| Labeler.RemoveLabel | addon/globalPlugins/CustomLabels/labeler.py:149 | remove()'s cache change once loaded. No contract of its own; RemoveThenHas states it |
| Labeler.Merged | addon/globalPlugins/CustomLabels/labeler.py:164-167 | getAll's `result.update(labels)` over the partitions in cache order. No contract of its own; MergedUnion states it |
| Labeler.NonEmptyApps | addon/globalPlugins/CustomLabels/labeler.py:177 | getApps' list comprehension over the cache order. No contract of its own; NonEmptyAppsIff states it |
| Labeler.LoadOnce | addon/globalPlugins/CustomLabels/labeler.py:64-68 | after _loadApp(a), a is loaded and the store stays coherent; a second _loadApp(a) changes nothing, whatever the files hold by then |
| Labeler.LoadKeepsOthers | addon/globalPlugins/CustomLabels/labeler.py:64-84 | loading one application leaves every other partition as it was |
| Labeler.SetThenGet | addon/globalPlugins/CustomLabels/labeler.py:126-141 | after set(fp, l), get(fp) == l and has(fp) holds; every other partition and every other key of fp's partition is unchanged |
| Labeler.RemoveThenHas | addon/globalPlugins/CustomLabels/labeler.py:143-159 | after a successful remove(fp), has(fp) is false and every other entry is unchanged |
| Labeler.LoadFileCaches | addon/globalPlugins/CustomLabels/labeler.py:211-219 | a readable file whose application is not loaded and whose labels decode puts exactly those labels in the cache under that application. A new name goes to the end of the cache order, and every other application is untouched |
| Labeler.LoadAllOnlyListed | addon/globalPlugins/CustomLabels/labeler.py:206-215 | _loadAllApps loads only the applications named by readable listed files |
| Labeler.LoadAllFirstFile | addon/globalPlugins/CustomLabels/labeler.py:202-223 | take the first readable listed file that names an application not yet loaded. After _loadAllApps, that application is cached with exactly the file's decoded labels, or has no cache entry when they fail to decode |
| Labeler.LoadAllCoherent | addon/globalPlugins/CustomLabels/labeler.py:202-223 | _loadAllApps keeps every cached application loaded and listed once in the cache order |
| Labeler.LoadAllKeepsLoaded | addon/globalPlugins/CustomLabels/labeler.py:213-219 | _loadAllApps never reloads: an already-loaded name keeps its cache entry, or its lack of one, and the cache order only grows at the end |
| Labeler.LoadAllMarksListed | addon/globalPlugins/CustomLabels/labeler.py:206-215 | after _loadAllApps, the application of every readable listed file is loaded |
| Labeler.LoadAllStable | addon/globalPlugins/CustomLabels/labeler.py:202-223 | _loadAllApps changes nothing when every readable listed file's application is already loaded |
| Labeler.LoadAllIdempotent | addon/globalPlugins/CustomLabels/labeler.py:202-223 | a second _loadAllApps over the same folder changes nothing |
| Labeler.UndecodableFileStaysUnread | addon/globalPlugins/CustomLabels/labeler.py:214-221 | a file whose labels fail to decode leaves its application loaded with no cache entry; its labels are never decoded again, `_loadApp` never reads the file, and the application has no labels |
| Labeler.MergedUnion | addon/globalPlugins/CustomLabels/labeler.py:161-167 | getAll holds a fingerprint iff some partition does, labelled as in the last such partition in cache order |
| Labeler.NonEmptyAppsIff | addon/globalPlugins/CustomLabels/labeler.py:174-177 | getApps lists an application iff it is cached with a non-empty partition |
| Labeler.NoAppsWhenAllEmpty | addon/globalPlugins/CustomLabels/labeler.py:174-177 | with every partition empty, getApps returns [] |
| Labeler.Emptied | addon/globalPlugins/CustomLabels/labeler.py:197-199 | the cache once clear()'s loop has emptied the partitions of the given names. EmptiedStep, EmptiedCoherent and EmptiedAll state its effect |
| Labeler.EmptiedStep | addon/globalPlugins/CustomLabels/labeler.py:197-199 | one more turn of clear()'s loop, `self._cache[appName] = {}`, empties one more partition |
| Labeler.EmptiedAll | addon/globalPlugins/CustomLabels/labeler.py:194-200 | after clear() every cached partition is empty and the cached names are unchanged |
| Labeler.LabelStore.constructor | addon/globalPlugins/CustomLabels/labeler.py:59-62 | a new store has nothing cached and nothing loaded |
| Labeler.LabelStore.AssignPartition | addon/globalPlugins/CustomLabels/labeler.py:79-82 | `self._cache[app] = labels`: the state becomes Assign of the old state, a new name going to the end of the key order (also lines 72, 84, 138-139, 188, 198, 216-219) |
| Labeler.LabelStore.LoadApp | addon/globalPlugins/CustomLabels/labeler.py:64-84 | the state becomes Load(old state, files, name) and stays coherent |
| Labeler.LabelStore.SaveApp | addon/globalPlugins/CustomLabels/labeler.py:86-111 | the folder becomes SavedFiles of the cached partition and the I/O outcome |
| Labeler.LabelStore.Get | addon/globalPlugins/CustomLabels/labeler.py:126-130 | loads the fingerprint's application, then returns its label in that partition, or None |
| Labeler.LabelStore.Has | addon/globalPlugins/CustomLabels/labeler.py:155-159 | loads the application, then tells whether the fingerprint has a label |
| Labeler.LabelStore.Set | addon/globalPlugins/CustomLabels/labeler.py:132-141 | the state becomes SetLabel of the loaded state; the partition is written through; the overlay memo is empty |
| Labeler.LabelStore.Remove | addon/globalPlugins/CustomLabels/labeler.py:143-153 | returns whether the fingerprint had a label once loaded. If not, nothing is saved, the cache is as loaded and the memo is untouched. If so, the label is dropped, the partition written through and the memo emptied |
| Labeler.LabelStore.GetLabelsForApp | addon/globalPlugins/CustomLabels/labeler.py:179-182 | loads the application and returns its partition, or {} |
| Labeler.LabelStore.RemoveApp | addon/globalPlugins/CustomLabels/labeler.py:184-192 | returns whether the application has a cache entry once loaded. If it does, the partition is emptied, its file removed and the memo emptied; otherwise nothing changes. Either way the partition reads empty afterwards |
| Labeler.LabelStore.LoadStem | addon/globalPlugins/CustomLabels/labeler.py:207-221 | one listed file read in: skipped when unreadable or already loaded; otherwise its application is marked loaded and cached unless a key fails to decode. The state becomes LoadFile of the old state, and LoadFileCaches states what that caches |
| Labeler.LabelStore.LoadAllApps | addon/globalPlugins/CustomLabels/labeler.py:202-223 | the state becomes LoadAll over the listing and stays coherent. LoadAllFirstFile states which labels that caches |
| Labeler.LabelStore.GetAll | addon/globalPlugins/CustomLabels/labeler.py:161-167 | after loading everything, returns the partitions merged in cache order |
| Labeler.LabelStore.GetAllByApp | addon/globalPlugins/CustomLabels/labeler.py:169-172 | after loading everything, returns the whole cache |
| Labeler.LabelStore.GetApps | addon/globalPlugins/CustomLabels/labeler.py:174-177 | after loading everything, returns the applications with non-empty partitions in cache order |
| Labeler.LabelStore.EmptyApp | addon/globalPlugins/CustomLabels/labeler.py:198-199 | one turn of clear()'s loop: the application's partition becomes empty and its file goes through _saveApp |
| Labeler.LabelStore.EmptyAll | addon/globalPlugins/CustomLabels/labeler.py:197-199 | clear()'s loop empties the partition of every application in the cache's key order and saves each in that order |
| Labeler.LabelStore.Clear | addon/globalPlugins/CustomLabels/labeler.py:194-200 | after loading everything, every cached partition is empty, each one's file went through _saveApp in cache order, and the memo is empty |
| Scenarios.LabelSurvivesRestart | addon/globalPlugins/CustomLabels/labeler.py:126-141 | a label set through one store is returned by get() on a new store over the same folder |
| Scenarios.LabelShowsInGetAll | addon/globalPlugins/CustomLabels/labeler.py:132-141 | on an empty folder, a label set through one store leaves one file. getAll() on a new store then returns exactly that label (lines 161-167, 202-223) |
| Scenarios.SetInEmptyFolder | addon/globalPlugins/CustomLabels/labeler.py:132-141 | set() through a new store on an empty folder leaves one file, holding just that label |
| Scenarios.GetAllOfOneFile | addon/globalPlugins/CustomLabels/labeler.py:161-167 | getAll() on a new store over a folder holding one saved partition returns that partition |
| Scenarios.LoadAllOneFile | addon/globalPlugins/CustomLabels/labeler.py:202-223 | _loadAllApps over a folder holding one saved partition caches exactly that partition, and getAll's merge is that partition |
| Scenarios.ClearLeavesNoApps | addon/globalPlugins/CustomLabels/labeler.py:174-200 | after clear(), every partition is empty and getApps() returns []; when removals complete, no cleared application keeps a file |
| Scenarios.SharedFileLosesLabels | addon/globalPlugins/CustomLabels/labeler.py:46-49 | with two names sharing a file, set for both then removeApp of one: a new store no longer finds the other's label |
| Scenarios.SetBothThenRemoveOne | addon/globalPlugins/CustomLabels/labeler.py:184-192 | with two names sharing a file, set for both then removeApp of one: the shared file is gone |
| Scenarios.CaseVariantsCollide | addon/globalPlugins/CustomLabels/labeler.py:36 | a name with an upper-case letter and its lower-case form are distinct names sharing one file |

## Left out

- `getLabelsFolder` and `getAppFilePath`'s path join (directory creation, configuration path): the folder is a map keyed by `sanitizeAppName(appName)`.
- `os.listdir`: the listing is a parameter holding the stems of the `.json` files. A listing that fails is the empty listing.
- JSON text and formatting (`indent=2`, `ensure_ascii=False`): a file is modelled by the value `json.load` gives. A file that does not parse, or is not a JSON object, is `Unreadable`.
- Keys whose items are not `[text, text-or-integer]` pairs count as failing to decode, and then the whole partition reads as empty. Python's `tuple(tuple(item))` accepts some of them and loads the partition. Examples are `["role", true]`, `["role", 1.0]`, a two-character string, or a two-key object. Such keys appear only in a hand-edited file. Some of them equal a real fingerprint: `("role", True)` and `("role", 1.0)` both equal `("role", 1)`, so in Python their labels can match real elements.
- Label values are text, and a document's `"appName"` is text or absent. Other JSON values in those places are not modelled.
- `AppNames.Lower`: lower-cases only the ASCII letters. Python's `str.lower()` also maps other scripts.
- `FingerPrintReader.Element`: an application name read as Python `None` without raising is not modelled. A falsy reading normalised by `or` is the same as the empty reading, so it needs no separate value.
- `FingerPrintReader.GetObjectFingerprint`: the function is total. The outer `except` that returns `None` cannot be reached once every read is guarded, so a null fingerprint is never produced.
- `Labeler.AppIsText`: the store's operations require the fingerprint's `"app"` value to be text or absent. With a non-zero integer there, the source fails in `sanitizeAppName` (`.lower()`). The integer 0 is filed under a key the model does not represent.
- `makeLabelOverlay`'s dynamic `NVDAObject` subclass: the overlay is an object with a `name` field. Object identity stands for class identity.
- `getLabel`, `setLabel`, `removeLabel`, `hasLabel`: each delegates to the module's one `LabelStore` instance. They are modelled by `Get`, `Set`, `Remove` and `Has` on that instance.
- Exception semantics of `open`, `os.remove` and `json.dump` when writing or removing: these become an `IoOutcome`. A failed removal is `OpenFailed` or `WriteFailed`, and it changes nothing.
- Transient read failures: a failed `open` or `json.load` in `_loadApp` or `_loadAllApps` is modelled only as the file being `Unreadable` in the folder state. A read that fails once on a file that still holds labels cannot be expressed. In the source, such a failure caches `{}` and marks the application loaded. The next `set()` then rewrites the file with that one label, and the other labels are lost. This data loss is not modelled. `Labeler.LoadAllIdempotent` relies on this: it holds because a file that failed to read fails again.
- Key strings that differ only in JSON formatting: a stored key is modelled by the JSON value it parses to. In the source the keys are strings, and `'[["app","x"]]'` and `'[["app", "x"]]'` decode to the same fingerprint. When a file holds both, the comprehension keeps the later label. A `map<Json, string>` cannot hold both, so that case is not modelled.
- Order inside a partition and the order of `getAllByApp`'s dict: partitions and the cache are modelled as `map`s. Only the dialogs' display order depends on these, and the dialogs sort the application names themselves.
- Concurrency and external changes to the files while the store runs: not modelled. The source is single-threaded.
