# Project file-system watcher: artifact registry and watch cascade

This project models `ProjectFsWatcher`, the class that keeps an in-memory view
of a Truffle project's compiled contract artifacts. The class watches a chain
of locations:

- the project's config file;
- the directory that contains the build directory (the parent level);
- the build directory;
- the contracts build directory (the artifacts level), which holds one `.json`
  artifact per contract.

The artifacts level keeps a registry made of two fields:

- `contracts`: a list of slots, each holding a parsed artifact or `null`;
- `fileToContractIdx`: a map from file name to slot position.

Every change to the registry is reported as a `"project-details-update"`
snapshot.

The files:

- `wrappers.dfy`: `Option`, which stands for `null` and for absent properties.
- `paths.dfy`: `Join`, `IsJson` (Node's `path.extname(name) === ".json"` for a name
  without a separator) and `Basename`.
- `artifacts.dfy`: the artifact record, its `networks` entries, and `Disk`.
  `Disk` is what one synchronous callback sees of the file system: whether a path
  exists, a directory's listing, and the read-and-parse result of a file.
  Also here is `readContract`'s network decoration (`Decorate`, `ReadContract`).
- `registry.dfy`: the registry as a value, and the rules by which the scan, creation,
  deletion (as written, with a one-argument `splice`) and modification change it.
  It also holds the corrected deletion, the usable-index invariant `Consistent`,
  and lemmas about all of these.
- `watcher.dfy`: the class itself. It has the source's fields, and each method is
  proved against the registry rules above.
  Watch handles are numbers taken from a counter `nextHandle`, so every new
  handle differs from all earlier ones. The ghost state records:
  - `openHandles`, how many handles are not yet closed;
  - `closed`, every closed handle in the order of the `close()` calls;
  - `configOpen`, whether the config handle is still open;
  - `updates`, every emitted snapshot.
  The invariant `Valid()` is the module-level predicate `HandleBook` over the
  four handle fields and this ghost state. It says seven things:
  - every handle a field holds, and every closed handle, was issued by the counter;
  - the four fields hold distinct handles;
  - the close log has no repeats;
  - every issued handle is either closed or counted open: `openHandles + |closed| == nextHandle`;
  - no handle a directory field holds has been closed, nor the config handle while `configOpen`;
  - `configOpen` implies that the config field holds a handle;
  - the open count equals the number of handles the three directory fields
    hold, plus one while the config handle is open. A start that overwrote a
    field without closing its handle would break this equation, so no start
    leaks a handle.
  Every method that closes handles states the exact handles it appends to
  `closed`, in order: each is the previous handle of the field it stops.

Each callback of `fs.watch` becomes one method, with the file system passed in as
a `Disk`:

- `OnConfigChange`;
- `OnParentDirectoryEvent`;
- `OnBuildDirectoryEvent`;
- `OnContractDirectoryEvent`.

The result of `getProjectDetails` is passed in as a parameter of `OnConfigChange`.

Where the evident intent and the code differ, the model follows the code:

- Deletion truncates the list from the deleted file's position and re-indexes
  nothing (see Findings).
- Starting the build level when the build directory is absent closes only the
  build handle. The artifacts level and the registry stay as they were (see
  `StartWatchingBuildDirectory`).
- If reloading the configuration fails, the three directory levels have already
  been stopped, so the registry is empty. The old descriptor is kept and nothing is
  restarted.
- An artifacts-directory event emits a snapshot even when it was ignored (a
  non-`.json` name).
- `stop()` closes the config handle but never resets the field.

## Model

| member | source | states |
|---|---|---|
| Artifacts.Decorate | src/truffle-integration/projectFsWatcher.js:110-129 | a failed read or parse, or a document without `networks`, gives null; an entry for the network id sets `address` and `creationTxHash` from its `address` and `transactionHash`; without one the document is unchanged; other properties and `networks` are always kept |
| Artifacts.ReadContract | src/truffle-integration/projectFsWatcher.js:110-129 | the result for `file` in `dir` is null exactly when the file did not read and parse or has no `networks`; otherwise it keeps the parsed metadata and `networks`; with an entry for the network id it takes `address` and `creationTxHash` from the entry's `address` and `transactionHash`, and without one it is the document as parsed |
| Paths.Extname | src/truffle-integration/projectFsWatcher.js:134 | Node's `path.extname` on a separator-free name: empty, or a dot-led suffix of the name with no further dot that is shorter than the name |
| Paths.IsJsonIsExtname | src/truffle-integration/projectFsWatcher.js:134-135 | the artifact test `IsJson` holds exactly when `path.extname(name) === ".json"` |
| Paths.Basename | src/truffle-integration/projectFsWatcher.js:64 | Node's `path.basename` on a slash-separated path: the longest separator-free suffix of the path once its trailing separators are dropped |
| ArtifactRegistry.Present | src/truffle-integration/projectFsWatcher.js:27 | the filtered list holds an artifact exactly when some slot holds it, and is no longer than the list |
| ArtifactRegistry.PresentAppend | src/truffle-integration/projectFsWatcher.js:27 | filtering keeps list order: the artifacts of `s + t` are those of `s` followed by those of `t` |
| ArtifactRegistry.PresentSingle | src/truffle-integration/projectFsWatcher.js:27 | a null slot contributes nothing and an artifact slot contributes its artifact |
| ArtifactRegistry.Created | src/truffle-integration/projectFsWatcher.js:147-151 | creation appends the file's slot after the old slots and indexes the file at the old length; every other index entry is kept |
| ArtifactRegistry.CreatedKeepsConsistent | src/truffle-integration/projectFsWatcher.js:147-151 | creation grows the list by one and keeps all index positions distinct and inside the list, even when the file was already indexed |
| ArtifactRegistry.Deleted | src/truffle-integration/projectFsWatcher.js:152-156 | deletion drops the file from the index, keeps all other entries, and leaves a prefix of the list: up to the recorded position (clamped to the length), or nothing if the file had no entry |
| ArtifactRegistry.DeletedLastKeepsConsistent | src/truffle-integration/projectFsWatcher.js:152-156 | deleting the file in the last slot removes exactly that slot and keeps the index usable |
| ArtifactRegistry.DeletingFirstOfThree | src/truffle-integration/projectFsWatcher.js:154-155 | from files A, B, C at 0, 1, 2, deleting A empties the list and leaves B at 1 and C at 2, so the index is no longer usable |
| ArtifactRegistry.DeletingUnknownEmpties | src/truffle-integration/projectFsWatcher.js:154 | deleting a file without an index entry (`splice(undefined)`) drops every slot and keeps the index |
| ArtifactRegistry.Removed | src/truffle-integration/projectFsWatcher.js:152-156 | corrected deletion drops exactly the file's index entry; when the file names an existing slot at `p`, the list loses exactly slot `p` (slot `j` of the result is old slot `j` below `p` and old slot `j + 1` from `p` on) and every position above `p` moves down by one; otherwise the list is unchanged |
| ArtifactRegistry.RemovedKeepsConsistent | src/truffle-integration/projectFsWatcher.js:152-156 | on a usable index, corrected deletion of an indexed file gives the list with exactly its slot cut out and positions above it shifted down by one; the index stays usable, only the file's key goes, and every other file still names the same slot content |
| ArtifactRegistry.RemovingFirstOfThree | src/truffle-integration/projectFsWatcher.js:152-156 | with corrected deletion, deleting A from A, B, C at 0, 1, 2 gives the list [B, C] with B at 0 and C at 1 |
| ArtifactRegistry.Assigned | src/truffle-integration/projectFsWatcher.js:160 | assigning slot `i` replaces it when it exists; otherwise the list grows to `i + 1` slots, with empty slots before `i`; every other slot is kept |
| ArtifactRegistry.Modified | src/truffle-integration/projectFsWatcher.js:157-161 | modification keeps the index; for an indexed file its slot receives the new read result (growing the list when the slot is past its end) and every other slot is kept; an unindexed file changes nothing |
| ArtifactRegistry.ModifiedKeepsConsistent | src/truffle-integration/projectFsWatcher.js:157-161 | on a usable index, modification keeps the index and the list length and changes only the file's recorded slot, or nothing when the file has no entry |
| ArtifactRegistry.ModifyingAfterDeletingMiddle | src/truffle-integration/projectFsWatcher.js:152-161 | after deleting B from A, B, C, modifying C writes past the end of the list `[A]` and leaves a hole: `[A, null, C']` |
| ArtifactRegistry.AfterEvent | src/truffle-integration/projectFsWatcher.js:143-163 | a non-`.json` name changes nothing; a change keeps the index; a rename indexes the file exactly when it now exists, a created file getting a new last slot holding its read result, and a deleted one leaving a prefix of the list |
| ArtifactRegistry.EventKeepsConsistent | src/truffle-integration/projectFsWatcher.js:143-163 | every file event except a deletion of a `.json` file keeps the index usable; non-`.json` names leave the registry as it was |
| ArtifactRegistry.AfterEventCorrected | src/truffle-integration/projectFsWatcher.js:143-163 | the events other than a `.json` deletion behave as `AfterEvent`; a `.json` deletion is the corrected removal `Removed` |
| ArtifactRegistry.EventCorrectedKeepsConsistent | src/truffle-integration/projectFsWatcher.js:143-163 | with corrected deletion, every file event keeps the index usable |
| ArtifactRegistry.JsonNames | src/truffle-integration/projectFsWatcher.js:133-135 | the names the scan handles are exactly the listed names with the `.json` extension |
| ArtifactRegistry.JsonNamesAppend | src/truffle-integration/projectFsWatcher.js:133-135 | the `.json` names of a concatenated listing are those of the first part followed by those of the second, so listing order is kept |
| ArtifactRegistry.Scanned | src/truffle-integration/projectFsWatcher.js:131-141 | a scan keeps the existing slots as a prefix and adds exactly one slot per `.json` name of the listing |
| ArtifactRegistry.ScannedFromEmpty | src/truffle-integration/projectFsWatcher.js:131-141 | a scan from an empty registry makes one slot per `.json` name, in listing order; each slot holds that file's read result (null if it did not parse); exactly those names are indexed, the k-th at position k |
| ArtifactRegistry.ScannedKeepsConsistent | src/truffle-integration/projectFsWatcher.js:131-141 | a scan keeps a usable index usable |
| ArtifactRegistry.ScenarioScan | src/truffle-integration/projectFsWatcher.js:131-141 | scanning a directory listing `A.json` (readable) and `B.json` (unreadable) gives the slots `[A decorated, null]`, in listing order |
| ArtifactRegistry.ScenarioValidAndMalformed | src/truffle-integration/projectFsWatcher.js:110-141 | a valid `A.json` deployed on network 5 at 0xAA next to a malformed `B.json` gives a snapshot of A alone, decorated with address 0xAA and the deployment's transaction hash |
| ProjectWatcher.ProjectFsWatcher.constructor | src/truffle-integration/projectFsWatcher.js:8-23 | after construction the config and parent levels hold handles 0 and 1; the build and artifacts levels are started as far as their directories exist, with handles 2 and 3; exactly one snapshot is emitted when the build directory exists and none otherwise; no handle has been closed and the open handles are the held ones |
| ProjectWatcher.ProjectFsWatcher.Watch | src/truffle-integration/projectFsWatcher.js:60-70 | `fs.watch` returns the next handle from the counter and one more handle is open |
| ProjectWatcher.ProjectFsWatcher.Close | src/truffle-integration/projectFsWatcher.js:73-76 | `close()` on a handle not yet closed: one fewer handle is open, and the handle is appended to the close log |
| ProjectWatcher.ProjectFsWatcher.GetProject | src/truffle-integration/projectFsWatcher.js:25-30 | the snapshot keeps the descriptor and lists the artifacts of the non-null slots in list order (see `Present`); as a function it changes nothing, and two calls with nothing in between are equal |
| ProjectWatcher.ProjectFsWatcher.SetContracts | src/truffle-integration/projectFsWatcher.js:32-34 | replaces the list and nothing else |
| ProjectWatcher.ProjectFsWatcher.Start | src/truffle-integration/projectFsWatcher.js:36-55 | requires the config handle to be closed (or never opened); installs the next handle as the config handle, then starts the cascade from the parent level; the handles it closes are the previous parent and build handles and, when the build directory exists, the previous artifacts handle, in that order |
| ProjectWatcher.ProjectFsWatcher.OnConfigChange | src/truffle-integration/projectFsWatcher.js:40-51 | closes the previous parent, build and artifacts handles, in that order and no other, and empties the registry; if the reload failed, nothing is restarted and the descriptor is kept; otherwise the descriptor is replaced and the cascade restarts from the parent level against it with fresh handles |
| ProjectWatcher.ProjectFsWatcher.Restart | src/truffle-integration/projectFsWatcher.js:47-50 | the config callback after a successful reload, from stopped directory levels: the descriptor becomes the reloaded one, the next handle is installed as the parent handle and the build level restarts against the new descriptor; nothing is closed |
| ProjectWatcher.ProjectFsWatcher.StartWatchingParentDirectory | src/truffle-integration/projectFsWatcher.js:57-71 | closes the previous parent handle, then the previous build handle and, when the build directory exists, the previous artifacts handle; installs the next handle from the counter as the parent handle and restarts the build level |
| ProjectWatcher.ProjectFsWatcher.WatchParentLevel | src/truffle-integration/projectFsWatcher.js:60-70 | installs the next handle as the parent handle and restarts the build level; the handles it closes are the previous build handle and, when the build directory exists, the previous artifacts handle |
| ProjectWatcher.ProjectFsWatcher.OnParentDirectoryEvent | src/truffle-integration/projectFsWatcher.js:63-67 | only an event for the build directory's base name restarts the build level, closing the previous build handle and, when the build directory exists, the previous artifacts handle; any other name changes nothing |
| ProjectWatcher.ProjectFsWatcher.StopWatchingParentDirectory | src/truffle-integration/projectFsWatcher.js:73-76 | closes the parent handle if there is one, and only that handle, and clears the field; a second call finds nothing to close |
| ProjectWatcher.ProjectFsWatcher.StartWatchingBuildDirectory | src/truffle-integration/projectFsWatcher.js:78-97 | closes the previous build handle; if the build directory exists, then closes the previous artifacts handle, installs a fresh build handle and restarts the artifacts level (one snapshot); if it does not, the artifacts level, the registry and the log stay as they were |
| ProjectWatcher.ProjectFsWatcher.WatchBuildLevel | src/truffle-integration/projectFsWatcher.js:81-95 | installs the next handle as the build handle and restarts the artifacts level, closing only the previous artifacts handle and emitting one snapshot |
| ProjectWatcher.ProjectFsWatcher.OnBuildDirectoryEvent | src/truffle-integration/projectFsWatcher.js:85-92 | only an event for the artifacts directory's base name restarts the artifacts level, closing the previous artifacts handle; any other name changes nothing |
| ProjectWatcher.ProjectFsWatcher.StopWatchingBuildDirectory | src/truffle-integration/projectFsWatcher.js:99-102 | closes the build handle if there is one, and only that handle, and clears the field; the artifacts level and the registry are untouched |
| ProjectWatcher.ProjectFsWatcher.ReadContracts | src/truffle-integration/projectFsWatcher.js:131-141 | the loop leaves the registry equal to `Scanned` of the old registry over the directory listing |
| ProjectWatcher.ProjectFsWatcher.HandleContractFileEvent | src/truffle-integration/projectFsWatcher.js:143-163 | the registry afterwards is `AfterEvent` of the old one: creation, truncating deletion or modification for `.json` names, and no change otherwise |
| ProjectWatcher.ProjectFsWatcher.OnContractDirectoryEvent | src/truffle-integration/projectFsWatcher.js:174-177 | handles the event, then emits exactly one snapshot of the new registry |
| ProjectWatcher.ProjectFsWatcher.StartWatchingContracts | src/truffle-integration/projectFsWatcher.js:165-182 | closes the previous artifacts handle, and only that one, and starts from an empty registry; if the directory exists, the registry becomes a fresh scan of its listing (no stale entry survives) and a fresh handle is installed; otherwise the registry is empty and no handle is held; either way exactly one snapshot is emitted |
| ProjectWatcher.ProjectFsWatcher.ScanAndWatch | src/truffle-integration/projectFsWatcher.js:168-178 | from a cleared artifacts level, the registry becomes the scan of the directory listing and the next handle from the counter is installed; nothing is closed |
| ProjectWatcher.ProjectFsWatcher.StopWatchingContracts | src/truffle-integration/projectFsWatcher.js:184-191 | closes the artifacts handle if there is one, and only that handle, clears the field and empties the list and the index; calling it again changes nothing |
| ProjectWatcher.ProjectFsWatcher.StopDirectoryLevels | src/truffle-integration/projectFsWatcher.js:193-198 | closes the previous parent, build and artifacts handles in that order and no other, clears the three fields and empties the registry; only the config handle can remain open |
| ProjectWatcher.ProjectFsWatcher.Stop | src/truffle-integration/projectFsWatcher.js:193-198 | closes the config handle when it is open, then the parent, build and artifacts handles, in that order; afterwards no handle is open, the three directory fields are null and the registry is empty; the config field keeps its closed handle |

`readContract` (src/truffle-integration/projectFsWatcher.js:110-129) is
`Artifacts.ReadContract`: the read-and-parse result of the file, decorated. Its contract is
`Decorate`'s, stated for the file it reads. `contractExists`
(src/truffle-integration/projectFsWatcher.js:104-108) is the `disk.isPresent(Join(dir, file))` test
inside `AfterEvent` and `HandleContractFileEvent`.

The artifacts level's handle and registry behave as follows:

- `StopWatchingContracts` is idempotent. Its postconditions fix the whole new
  state, so a second call finds nothing to close and nothing to clear.
- "Each level has at most one live handle" follows from `Valid()`. Every issued
  handle is either closed or counted open (`openHandles + |closed| == nextHandle`),
  and the close log has no repeats, so exactly `openHandles` issued handles are not
  closed. The fields hold that many distinct unclosed handles, so every handle
  that is not closed is held by a field, and a field holds one handle or none.
  Each start closes the previous handle of its own field, as its `closed`
  postcondition states, before it installs the next one from the counter.

## Left out

- Watch installation and listing failures: `fs.watch` throwing (for instance on a missing parent directory) is not modelled, and neither is `fs.readdirSync` throwing when the artifacts path exists but is not a directory, or vanishes after the `existsSync` test. Every installation succeeds and `Disk.listDir` always gives a listing.
- Which path each handle watches (`path.dirname`, the `encoding` option) is not recorded. It does not affect the registry or the handle counts.
- OS event coalescing or reordering, and callbacks still arriving from a handle after it is closed, are not modelled. Each callback is one atomic method call. The artifacts callback is not required to come from the live handle.
- Event file names are always strings. A `null` file name, which some platforms deliver and which makes `path.extname` throw, is not modelled.
- `JSON.parse` and `fs.readFileSync` are replaced by `Disk.readFile`, which gives an artifact record or None. A JSON value that is not an object is modelled as a record without `networks`. A `networks` entry that is a falsy non-object is modelled as no entry.
- The network id is a string. A missing network id (`undefined`) is not modelled.
- `path.join` normalisation and Windows separators are not modelled. `Join` and `Basename` work on slash-separated paths.
- A hole left by assigning past the end of the list is modelled as a null slot. `filter` skips both, and nothing else here tells them apart.
- `contracts[undefined] = ...` sets a property that no list operation sees. It is modelled as no change.
- `lodash.merge`: the snapshot is a fresh record of the descriptor and the filtered list. If the descriptor itself held a `contracts` array, the merge would combine the two arrays index by index; that is not modelled.
- `getProjectDetails` is not part of this model. Its result is the `reloaded` parameter of `OnConfigChange`, and None stands for a throw. The exception escaping the callback is not modelled.
- `EventEmitter` dispatch to listeners is not modelled. Emissions are only recorded in the ghost `updates` log.
- ProjectWatcher.ProjectFsWatcher.Start: requires the config handle to be closed, as it is in the constructor and after `stop()`. A call while the config handle is open would overwrite it without closing it, which the handle invariant does not allow.
- ProjectWatcher.ProjectFsWatcher.SetContracts: the source keeps the caller's array by reference, so later `push`, `splice` and slot writes also show up in the caller's array. The `seq` field is a value, so this sharing is not modelled.
- Which handles are open is given by the count `openHandles` and the close log `closed`, not by a set of open handles.

## Findings

| source | as written | input that shows it | evidently intended | confidence | as-written member | corrected member |
|---|---|---|---|---|---|---|
| src/truffle-integration/projectFsWatcher.js:154 | `splice(idx)` with one argument removes every slot from `idx` to the end of the list, and no surviving file is re-indexed | files A.json, B.json, C.json scanned at 0, 1, 2, then A.json deleted: the list becomes empty and the index `{B.json: 1, C.json: 2}` | remove only A.json's slot and shift later positions down: list `[B, C]`, index `{B.json: 0, C.json: 1}` | high; not executed | ArtifactRegistry.DeletingFirstOfThree | ArtifactRegistry.RemovedKeepsConsistent |

The class keeps the as-written deletion, because it models the code.

The corrected rule is `Removed`, used by `AfterEventCorrected`:

- `RemovedKeepsConsistent` proves that the corrected rule keeps the index usable.
- `RemovingFirstOfThree` gives its result on the example above.
- `EventCorrectedKeepsConsistent` extends the guarantee to every event.

A follow-on effect of the as-written rule is shown by `ModifyingAfterDeletingMiddle`: a modification event can then grow the list past its end.
