/**
 * The `ProjectFsWatcher` class: the cascade of watch levels (config file,
 * parent of the build directory, build directory, artifacts directory) and
 * the artifact registry the last level keeps. Watch handles are numbers
 * drawn from a counter; a ghost count records how many are not yet closed.
 * Each callback is one method call that runs to completion against the file
 * system it observes.
 */
module ProjectWatcher {
  import opened Wrappers
  import opened Paths
  import opened Artifacts
  import opened ArtifactRegistry

  /** The parts of the project descriptor the watcher reads. */
  datatype Project = Project(configFile: string, buildDirectory: string, contractsBuildDirectory: string)

  /** What `getProject` returns: the descriptor with the artifacts that parsed. */
  datatype Snapshot = Snapshot(project: Project, contracts: seq<Artifact>)

  /** A watch handle returned by `fs.watch`. */
  type Handle = nat

  /** How many handles a field holds: one or none. */
  function Count(h: Option<Handle>): nat {
    if h.Some? then 1 else 0
  }

  /** Two fields do not hold the same handle. */
  predicate Apart(a: Option<Handle>, b: Option<Handle>) {
    a.Some? && b.Some? ==> a.value != b.value
  }

  /** The handle a field holds, as a sequence of one or none. */
  function Held(h: Option<Handle>): seq<Handle> {
    if h.Some? then [h.value] else []
  }

  /** `h`, when present, was issued before `next`. */
  predicate Issued(h: Option<Handle>, next: Handle) {
    h.Some? ==> h.value < next
  }

  /** `h`, when present, is not in the close log. */
  predicate NotClosed(h: Option<Handle>, closed: seq<Handle>) {
    h.Some? ==> h.value !in closed
  }

  /**
   * The handle bookkeeping is sound:
   * - the four fields hold distinct issued handles, and every closed handle
   *   was issued and closed once;
   * - every issued handle is either closed or counted open;
   * - the open handles are exactly those held by the three directory fields
   *   and, until it is closed, the config field: the count matches and none
   *   of them is closed. A start that overwrote a field without closing its
   *   handle first would leave one open handle too many.
   */
  ghost predicate HandleBook(config: Option<Handle>, parent: Option<Handle>, build: Option<Handle>,
                             artifacts: Option<Handle>, configOpen: bool, next: Handle, openHandles: nat,
                             closed: seq<Handle>)
  {
    && Issued(config, next) && Issued(parent, next) && Issued(build, next) && Issued(artifacts, next)
    && Apart(config, parent) && Apart(config, build) && Apart(config, artifacts)
    && Apart(parent, build) && Apart(parent, artifacts) && Apart(build, artifacts)
    && (forall i :: 0 <= i < |closed| ==> closed[i] < next)
    && (forall i, j :: 0 <= i < j < |closed| ==> closed[i] != closed[j])
    && openHandles + |closed| == next
    && (configOpen ==> config.Some? && config.value !in closed)
    && NotClosed(parent, closed) && NotClosed(build, closed) && NotClosed(artifacts, closed)
    && openHandles == (if configOpen then 1 else 0) + Count(parent) + Count(build) + Count(artifacts)
  }

  class ProjectFsWatcher {
    var project: Project
    const networkId: string

    var configWatcher: Option<Handle>
    var parentDirectoryWatcher: Option<Handle>
    var buildDirectoryWatcher: Option<Handle>
    var contractBuildDirectoryWatcher: Option<Handle>

    var contracts: seq<Slot>
    var fileToContractIdx: map<string, nat>

    /** The handle the next `fs.watch` returns. */
    var nextHandle: Handle
    /** How many handles `fs.watch` has returned that are not yet closed. */
    ghost var openHandles: nat
    /** Every handle closed so far, in the order of the `close()` calls. */
    ghost var closed: seq<Handle>
    /** Whether the config handle is still open; `stop()` closes it without clearing the field. */
    ghost var configOpen: bool
    /** Every snapshot emitted as "project-details-update", oldest first. */
    ghost var updates: seq<Snapshot>

    /** The registry held in the two fields. */
    function Current(): Registry
      reads this
    {
      Registry(contracts, fileToContractIdx)
    }

    /**
     * The handle invariant over the four handle fields and the ghost
     * bookkeeping; see `HandleBook`.
     */
    ghost predicate Valid()
      reads this
    {
      HandleBook(configWatcher, parentDirectoryWatcher, buildDirectoryWatcher, contractBuildDirectoryWatcher,
                 configOpen, nextHandle, openHandles, closed)
    }

    /**
     * The artifacts level as `startWatchingContracts` leaves it when `first`
     * was the next free handle: watched and freshly scanned when the artifacts
     * directory exists, unwatched and empty otherwise.
     */
    ghost predicate ContractsStarted(disk: Disk, first: Handle)
      reads this
    {
      var dir := project.contractsBuildDirectory;
      if disk.isPresent(dir) then
        && contractBuildDirectoryWatcher == Some(first)
        && nextHandle == first + 1
        && Current() == Scanned(Empty, disk.listDir(dir), disk, dir, networkId)
      else
        && contractBuildDirectoryWatcher.None?
        && nextHandle == first
        && Current() == Empty
    }

    constructor (project: Project, networkId: string, disk: Disk)
      ensures Valid() && configOpen && closed == []
      ensures this.project == project && this.networkId == networkId
      ensures configWatcher == Some(0) && parentDirectoryWatcher == Some(1)
      ensures if disk.isPresent(project.buildDirectory) then
                buildDirectoryWatcher == Some(2) && ContractsStarted(disk, 3) && updates == [GetProject()]
              else
                && buildDirectoryWatcher.None? && contractBuildDirectoryWatcher.None?
                && nextHandle == 2 && Current() == Empty && updates == []
    {
      this.project := project;
      this.networkId := networkId;
      configWatcher := None;
      parentDirectoryWatcher := None;
      buildDirectoryWatcher := None;
      contractBuildDirectoryWatcher := None;
      contracts := [];
      fileToContractIdx := map[];
      nextHandle := 0;
      openHandles := 0;
      closed := [];
      configOpen := false;
      updates := [];
      new;
      Start(disk);
    }

    /** `fs.watch`: a new open handle. */
    method Watch() returns (h: Handle)
      modifies this`nextHandle, this`openHandles
      ensures h == old(nextHandle) && nextHandle == h + 1
      ensures openHandles == old(openHandles) + 1
    {
      h := nextHandle;
      nextHandle := nextHandle + 1;
      openHandles := openHandles + 1;
    }

    /** `handle.close()` on an open handle. */
    ghost method Close(h: Handle)
      requires openHandles > 0 && h !in closed
      modifies this`openHandles, this`closed
      ensures openHandles == old(openHandles) - 1
      ensures closed == old(closed) + [h]
    {
      openHandles := openHandles - 1;
      closed := closed + [h];
    }

    /** The snapshot: the descriptor, and the artifacts of the non-null slots in list order. */
    function GetProject(): (s: Snapshot)
      reads this
      ensures s.project == project
      ensures forall a :: a in s.contracts <==> Some(a) in contracts
      ensures s.contracts == Present(contracts)
    {
      Snapshot(project, Present(contracts))
    }

    method SetContracts(contracts: seq<Slot>)
      modifies this`contracts
      ensures this.contracts == contracts
    {
      this.contracts := contracts;
    }

    /** Installs the config watcher, then starts the cascade from the parent level. */
    method Start(disk: Disk)
      requires Valid() && !configOpen
      modifies this`configWatcher, this`configOpen, this`parentDirectoryWatcher, this`buildDirectoryWatcher,
               this`contractBuildDirectoryWatcher, this`openHandles, this`closed, this`nextHandle,
               this`contracts, this`fileToContractIdx, this`updates
      ensures Valid() && configOpen
      ensures closed == old(closed) + Held(old(parentDirectoryWatcher)) + Held(old(buildDirectoryWatcher))
                        + (if disk.isPresent(project.buildDirectory) then Held(old(contractBuildDirectoryWatcher)) else [])
      ensures configWatcher == Some(old(nextHandle)) && parentDirectoryWatcher == Some(old(nextHandle) + 1)
      ensures if disk.isPresent(project.buildDirectory) then
                && buildDirectoryWatcher == Some(old(nextHandle) + 2)
                && ContractsStarted(disk, old(nextHandle) + 3)
                && updates == old(updates) + [GetProject()]
              else
                && buildDirectoryWatcher.None? && nextHandle == old(nextHandle) + 2
                && contractBuildDirectoryWatcher == old(contractBuildDirectoryWatcher)
                && Current() == old(Current()) && updates == old(updates)
    {
      var h := Watch();
      configWatcher := Some(h);
      configOpen := true;
      StartWatchingParentDirectory(disk);
    }

    /**
     * The config watcher's callback. The directory levels are stopped (which
     * empties the registry); then `reloaded` is what `getProjectDetails`
     * returned, None when it threw, in which case nothing is restarted;
     * otherwise it replaces the descriptor and the cascade restarts from the
     * parent level.
     */
    method OnConfigChange(reloaded: Option<Project>, disk: Disk)
      requires Valid()
      modifies this`project, this`parentDirectoryWatcher, this`buildDirectoryWatcher,
               this`contractBuildDirectoryWatcher, this`openHandles, this`closed, this`nextHandle,
               this`contracts, this`fileToContractIdx, this`updates
      ensures Valid()
      ensures closed == old(closed) + Held(old(parentDirectoryWatcher)) + Held(old(buildDirectoryWatcher)) + Held(old(contractBuildDirectoryWatcher))
      ensures project == if reloaded.Some? then reloaded.value else old(project)
      ensures reloaded.None? ==>
                && parentDirectoryWatcher.None? && buildDirectoryWatcher.None? && contractBuildDirectoryWatcher.None?
                && Current() == Empty && nextHandle == old(nextHandle) && updates == old(updates)
      ensures reloaded.Some? ==>
                && parentDirectoryWatcher == Some(old(nextHandle))
                && if disk.isPresent(project.buildDirectory) then
                     && buildDirectoryWatcher == Some(old(nextHandle) + 1)
                     && ContractsStarted(disk, old(nextHandle) + 2)
                     && updates == old(updates) + [GetProject()]
                   else
                     && buildDirectoryWatcher.None? && contractBuildDirectoryWatcher.None?
                     && Current() == Empty && nextHandle == old(nextHandle) + 1 && updates == old(updates)
    {
      ghost var before := closed + Held(parentDirectoryWatcher) + Held(buildDirectoryWatcher) + Held(contractBuildDirectoryWatcher);
      ghost var next, emitted := nextHandle, updates;
      StopDirectoryLevels();
      assert closed == before && nextHandle == next && updates == emitted;
      if reloaded.Some? {
        Restart(reloaded.value, disk);
      }
    }

    /** The config callback after a successful reload: adopt the descriptor and restart from the parent level. */
    method Restart(reloaded: Project, disk: Disk)
      requires Valid()
      requires parentDirectoryWatcher.None? && buildDirectoryWatcher.None? && contractBuildDirectoryWatcher.None?
      modifies this`project, this`parentDirectoryWatcher, this`buildDirectoryWatcher,
               this`contractBuildDirectoryWatcher, this`openHandles, this`closed, this`nextHandle,
               this`contracts, this`fileToContractIdx, this`updates
      ensures Valid() && closed == old(closed)
      ensures project == reloaded && parentDirectoryWatcher == Some(old(nextHandle))
      ensures if disk.isPresent(reloaded.buildDirectory) then
                && buildDirectoryWatcher == Some(old(nextHandle) + 1)
                && ContractsStarted(disk, old(nextHandle) + 2)
                && updates == old(updates) + [GetProject()]
              else
                && buildDirectoryWatcher.None? && contractBuildDirectoryWatcher.None?
                && Current() == old(Current()) && nextHandle == old(nextHandle) + 1 && updates == old(updates)
    {
      project := reloaded;
      StartWatchingParentDirectory(disk);
    }

    /** Restarts the parent level, which starts the build level. */
    method StartWatchingParentDirectory(disk: Disk)
      requires Valid()
      modifies this`parentDirectoryWatcher, this`buildDirectoryWatcher, this`contractBuildDirectoryWatcher,
               this`openHandles, this`closed, this`nextHandle, this`contracts, this`fileToContractIdx, this`updates
      ensures Valid()
      ensures closed == old(closed) + Held(old(parentDirectoryWatcher)) + Held(old(buildDirectoryWatcher))
                        + (if disk.isPresent(project.buildDirectory) then Held(old(contractBuildDirectoryWatcher)) else [])
      ensures parentDirectoryWatcher == Some(old(nextHandle))
      ensures if disk.isPresent(project.buildDirectory) then
                && buildDirectoryWatcher == Some(old(nextHandle) + 1)
                && ContractsStarted(disk, old(nextHandle) + 2)
                && updates == old(updates) + [GetProject()]
              else
                && buildDirectoryWatcher.None? && nextHandle == old(nextHandle) + 1
                && contractBuildDirectoryWatcher == old(contractBuildDirectoryWatcher)
                && Current() == old(Current()) && updates == old(updates)
    {
      StopWatchingParentDirectory();
      WatchParentLevel(disk);
    }

    /** `startWatchingParentDirectory` after its stop: install a handle, then restart the build level. */
    method WatchParentLevel(disk: Disk)
      requires Valid() && parentDirectoryWatcher.None?
      modifies this`parentDirectoryWatcher, this`buildDirectoryWatcher, this`contractBuildDirectoryWatcher,
               this`openHandles, this`closed, this`nextHandle, this`contracts, this`fileToContractIdx, this`updates
      ensures Valid()
      ensures closed == old(closed) + Held(old(buildDirectoryWatcher))
                        + (if disk.isPresent(project.buildDirectory) then Held(old(contractBuildDirectoryWatcher)) else [])
      ensures parentDirectoryWatcher == Some(old(nextHandle))
      ensures if disk.isPresent(project.buildDirectory) then
                && buildDirectoryWatcher == Some(old(nextHandle) + 1)
                && ContractsStarted(disk, old(nextHandle) + 2)
                && updates == old(updates) + [GetProject()]
              else
                && buildDirectoryWatcher.None? && nextHandle == old(nextHandle) + 1
                && contractBuildDirectoryWatcher == old(contractBuildDirectoryWatcher)
                && Current() == old(Current()) && updates == old(updates)
    {
      var h := Watch();
      parentDirectoryWatcher := Some(h);
      StartWatchingBuildDirectory(disk);
    }

    /** The parent watcher's callback: an event named like the build directory restarts the build level. */
    method OnParentDirectoryEvent(filename: string, disk: Disk)
      requires Valid()
      modifies this`buildDirectoryWatcher, this`contractBuildDirectoryWatcher,
               this`openHandles, this`closed, this`nextHandle, this`contracts, this`fileToContractIdx, this`updates
      ensures Valid()
      ensures filename != Basename(project.buildDirectory) ==> unchanged(this)
      ensures filename == Basename(project.buildDirectory) ==>
                closed == old(closed) + Held(old(buildDirectoryWatcher))
                          + (if disk.isPresent(project.buildDirectory) then Held(old(contractBuildDirectoryWatcher)) else [])
      ensures filename == Basename(project.buildDirectory) ==>
                if disk.isPresent(project.buildDirectory) then
                  && buildDirectoryWatcher == Some(old(nextHandle))
                  && ContractsStarted(disk, old(nextHandle) + 1)
                  && updates == old(updates) + [GetProject()]
                else
                  && buildDirectoryWatcher.None? && nextHandle == old(nextHandle)
                  && contractBuildDirectoryWatcher == old(contractBuildDirectoryWatcher)
                  && Current() == old(Current()) && updates == old(updates)
    {
      if filename == Basename(project.buildDirectory) {
        StartWatchingBuildDirectory(disk);
      }
    }

    /** Closes the parent handle, if any. */
    method StopWatchingParentDirectory()
      requires Valid()
      modifies this`parentDirectoryWatcher, this`openHandles, this`closed
      ensures Valid()
      ensures parentDirectoryWatcher.None?
      ensures openHandles == old(openHandles) - Count(old(parentDirectoryWatcher))
      ensures closed == old(closed) + Held(old(parentDirectoryWatcher))
    {
      if parentDirectoryWatcher.Some? {
        Close(parentDirectoryWatcher.value);
      }
      parentDirectoryWatcher := None;
    }

    /**
     * Restarts the build level: closes its handle, and only when the build
     * directory exists installs a new one and restarts the artifacts level.
     * When it does not exist the artifacts level is left as it was.
     */
    method StartWatchingBuildDirectory(disk: Disk)
      requires Valid()
      modifies this`buildDirectoryWatcher, this`contractBuildDirectoryWatcher,
               this`openHandles, this`closed, this`nextHandle, this`contracts, this`fileToContractIdx, this`updates
      ensures Valid()
      ensures closed == old(closed) + Held(old(buildDirectoryWatcher))
                        + (if disk.isPresent(project.buildDirectory) then Held(old(contractBuildDirectoryWatcher)) else [])
      ensures if disk.isPresent(project.buildDirectory) then
                && buildDirectoryWatcher == Some(old(nextHandle))
                && ContractsStarted(disk, old(nextHandle) + 1)
                && updates == old(updates) + [GetProject()]
              else
                && buildDirectoryWatcher.None? && nextHandle == old(nextHandle)
                && contractBuildDirectoryWatcher == old(contractBuildDirectoryWatcher)
                && Current() == old(Current()) && updates == old(updates)
    {
      ghost var before := closed + Held(buildDirectoryWatcher);
      ghost var artifacts, registry, emitted, next := contractBuildDirectoryWatcher, Current(), updates, nextHandle;
      StopWatchingBuildDirectory();
      assert closed == before;
      assert contractBuildDirectoryWatcher == artifacts && Current() == registry && updates == emitted && nextHandle == next;
      if disk.isPresent(project.buildDirectory) {
        WatchBuildLevel(disk);
      }
    }

    /** The present-directory branch of `startWatchingBuildDirectory`: install a handle, then restart the artifacts level. */
    method WatchBuildLevel(disk: Disk)
      requires Valid() && buildDirectoryWatcher.None?
      modifies this`buildDirectoryWatcher, this`contractBuildDirectoryWatcher,
               this`openHandles, this`closed, this`nextHandle, this`contracts, this`fileToContractIdx, this`updates
      ensures Valid()
      ensures closed == old(closed) + Held(old(contractBuildDirectoryWatcher))
      ensures buildDirectoryWatcher == Some(old(nextHandle))
      ensures ContractsStarted(disk, old(nextHandle) + 1)
      ensures updates == old(updates) + [GetProject()]
    {
      var h := Watch();
      buildDirectoryWatcher := Some(h);
      StartWatchingContracts(disk);
    }

    /** The build watcher's callback: an event named like the artifacts directory restarts the artifacts level. */
    method OnBuildDirectoryEvent(filename: string, disk: Disk)
      requires Valid()
      modifies this`contractBuildDirectoryWatcher, this`openHandles, this`closed, this`nextHandle,
               this`contracts, this`fileToContractIdx, this`updates
      ensures Valid()
      ensures filename != Basename(project.contractsBuildDirectory) ==> unchanged(this)
      ensures filename == Basename(project.contractsBuildDirectory) ==> closed == old(closed) + Held(old(contractBuildDirectoryWatcher))
      ensures filename == Basename(project.contractsBuildDirectory) ==>
                ContractsStarted(disk, old(nextHandle)) && updates == old(updates) + [GetProject()]
    {
      if filename == Basename(project.contractsBuildDirectory) {
        StartWatchingContracts(disk);
      }
    }

    /** Closes the build level's own handle, and nothing below it. */
    method StopWatchingBuildDirectory()
      requires Valid()
      modifies this`buildDirectoryWatcher, this`openHandles, this`closed
      ensures Valid()
      ensures buildDirectoryWatcher.None?
      ensures openHandles == old(openHandles) - Count(old(buildDirectoryWatcher))
      ensures closed == old(closed) + Held(old(buildDirectoryWatcher))
    {
      if buildDirectoryWatcher.Some? {
        Close(buildDirectoryWatcher.value);
      }
      buildDirectoryWatcher := None;
    }
    /** The `for` loop over the artifacts directory's listing, appending to the registry. */
    method ReadContracts(disk: Disk)
      modifies this`contracts, this`fileToContractIdx
      ensures Current() == Scanned(old(Current()), disk.listDir(project.contractsBuildDirectory), disk,
                                   project.contractsBuildDirectory, networkId)
    {
      var dir := project.contractsBuildDirectory;
      var files := disk.listDir(dir);
      for i := 0 to |files|
        invariant Current() == Scanned(old(Current()), files[..i], disk, dir, networkId)
      {
        assert files[..i + 1][..i] == files[..i];
        if IsJson(files[i]) {
          fileToContractIdx := fileToContractIdx[files[i] := |contracts|];
          var contract := ReadContract(disk, dir, networkId, files[i]);
          contracts := contracts + [contract];
        }
      }
      assert files[..|files|] == files;
    }

    /** Applies one event of the artifacts directory to the registry. */
    method HandleContractFileEvent(kind: EventKind, filename: string, disk: Disk)
      modifies this`contracts, this`fileToContractIdx
      ensures Current() == AfterEvent(old(Current()), kind, filename, disk, project.contractsBuildDirectory, networkId)
    {
      var dir := project.contractsBuildDirectory;
      if IsJson(filename) {
        match kind
        case Rename =>
          if disk.isPresent(Join(dir, filename)) {
            fileToContractIdx := fileToContractIdx[filename := |contracts|];
            var contract := ReadContract(disk, dir, networkId, filename);
            contracts := contracts + [contract];
          } else {
            var start := if filename in fileToContractIdx then Min(fileToContractIdx[filename], |contracts|) else 0;
            contracts := contracts[..start];
            fileToContractIdx := fileToContractIdx - {filename};
          }
        case Change =>
          var contract := ReadContract(disk, dir, networkId, filename);
          if filename in fileToContractIdx {
            contracts := Assigned(contracts, fileToContractIdx[filename], contract);
          }
      }
    }

    /** The artifacts watcher's callback: handle the event, then emit one snapshot. */
    method OnContractDirectoryEvent(kind: EventKind, filename: string, disk: Disk)
      modifies this`contracts, this`fileToContractIdx, this`updates
      ensures Current() == AfterEvent(old(Current()), kind, filename, disk, project.contractsBuildDirectory, networkId)
      ensures updates == old(updates) + [GetProject()]
    {
      HandleContractFileEvent(kind, filename, disk);
      updates := updates + [GetProject()];
    }

    /**
     * Restarts the artifacts level: clears the registry, and when the
     * directory exists rescans it and installs a handle; in both cases emits
     * exactly one snapshot.
     */
    method StartWatchingContracts(disk: Disk)
      requires Valid()
      modifies this`contractBuildDirectoryWatcher, this`openHandles, this`closed, this`nextHandle,
               this`contracts, this`fileToContractIdx, this`updates
      ensures Valid()
      ensures closed == old(closed) + Held(old(contractBuildDirectoryWatcher))
      ensures ContractsStarted(disk, old(nextHandle))
      ensures updates == old(updates) + [GetProject()]
    {
      StopWatchingContracts();
      if disk.isPresent(project.contractsBuildDirectory) {
        ScanAndWatch(disk);
      }
      updates := updates + [GetProject()];
    }

    /** The present-directory branch of `startWatchingContracts`: rescan, then install a handle. */
    method ScanAndWatch(disk: Disk)
      requires Valid() && contractBuildDirectoryWatcher.None? && Current() == Empty
      modifies this`contractBuildDirectoryWatcher, this`openHandles, this`closed, this`nextHandle,
               this`contracts, this`fileToContractIdx
      ensures Valid() && closed == old(closed)
      ensures contractBuildDirectoryWatcher == Some(old(nextHandle)) && nextHandle == old(nextHandle) + 1
      ensures Current() == Scanned(Empty, disk.listDir(project.contractsBuildDirectory), disk,
                                   project.contractsBuildDirectory, networkId)
    {
      ReadContracts(disk);
      ghost var scanned := Current();
      var h := Watch();
      assert Current() == scanned;
      contractBuildDirectoryWatcher := Some(h);
    }

    /** Closes the artifacts level's handle and clears the registry; calling it again changes nothing. */
    method StopWatchingContracts()
      requires Valid()
      modifies this`contractBuildDirectoryWatcher, this`openHandles, this`closed, this`contracts, this`fileToContractIdx
      ensures Valid()
      ensures contractBuildDirectoryWatcher.None? && Current() == Empty
      ensures openHandles == old(openHandles) - Count(old(contractBuildDirectoryWatcher))
      ensures closed == old(closed) + Held(old(contractBuildDirectoryWatcher))
    {
      if contractBuildDirectoryWatcher.Some? {
        Close(contractBuildDirectoryWatcher.value);
      }
      contractBuildDirectoryWatcher := None;
      contracts := [];
      fileToContractIdx := map[];
    }

    /**
     * Tears the cascade down: afterwards no handle is open. The config field
     * keeps its (closed) handle, as the source never resets it.
     */
    method Stop()
      requires Valid()
      modifies this`configOpen, this`parentDirectoryWatcher, this`buildDirectoryWatcher,
               this`contractBuildDirectoryWatcher, this`openHandles, this`closed, this`contracts, this`fileToContractIdx
      ensures Valid()
      ensures openHandles == 0 && !configOpen
      ensures closed == old(closed) + (if old(configOpen) then Held(old(configWatcher)) else [])
                        + Held(old(parentDirectoryWatcher)) + Held(old(buildDirectoryWatcher)) + Held(old(contractBuildDirectoryWatcher))
      ensures parentDirectoryWatcher.None? && buildDirectoryWatcher.None? && contractBuildDirectoryWatcher.None?
      ensures Current() == Empty
    {
      if configWatcher.Some? {
        if configOpen {
          Close(configWatcher.value);
          configOpen := false;
        }
      }
      StopDirectoryLevels();
    }

    /** The three stops that `stop()` and the config callback run, parent level first. */
    method StopDirectoryLevels()
      requires Valid()
      modifies this`parentDirectoryWatcher, this`buildDirectoryWatcher, this`contractBuildDirectoryWatcher,
               this`openHandles, this`closed, this`contracts, this`fileToContractIdx
      ensures Valid()
      ensures parentDirectoryWatcher.None? && buildDirectoryWatcher.None? && contractBuildDirectoryWatcher.None?
      ensures Current() == Empty
      ensures openHandles == if configOpen then 1 else 0
      ensures closed == old(closed) + Held(old(parentDirectoryWatcher)) + Held(old(buildDirectoryWatcher))
                        + Held(old(contractBuildDirectoryWatcher))
    {
      StopWatchingParentDirectory();
      StopWatchingBuildDirectory();
      StopWatchingContracts();
    }
  }
}
