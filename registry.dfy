/**
 * The artifact registry as a value: the list of slots (`contracts`, where
 * None stands for `null`) and the index from file name to slot position
 * (`fileToContractIdx`), with the rules by which a scan and each file event
 * change it. The watcher class applies exactly these rules to its fields.
 */
module ArtifactRegistry {
  import opened Wrappers
  import opened Paths
  import opened Artifacts

  /** A list slot: a decorated artifact, or null for a file that did not parse. */
  type Slot = Option<Artifact>

  datatype Registry = Registry(contracts: seq<Slot>, index: map<string, nat>)

  /** The two kinds of event `fs.watch` delivers. */
  datatype EventKind = Rename | Change

  const Empty: Registry := Registry([], map[])

  /**
   * The index is usable: every recorded position names an existing slot and
   * no two file names share a position.
   */
  ghost predicate Consistent(r: Registry) {
    && (forall f :: f in r.index ==> r.index[f] < |r.contracts|)
    && (forall f, g :: f in r.index && g in r.index && f != g ==> r.index[f] != r.index[g])
  }

  // ---------------------------------------------------------------- snapshots

  /** The artifacts of the non-null slots, as `contracts.filter(c => c !== null)`. */
  function Present(s: seq<Slot>): (r: seq<Artifact>)
    ensures |r| <= |s|
    ensures forall a :: a in r <==> Some(a) in s
  {
    if s == [] then []
    else
      var init := Present(s[..|s| - 1]);
      assert s == s[..|s| - 1] + [s[|s| - 1]];
      init + (if s[|s| - 1].Some? then [s[|s| - 1].value] else [])
  }

  /** Filtering keeps the order: the artifacts of `s + t` are those of `s` followed by those of `t`. */
  lemma {:induction false} PresentAppend(s: seq<Slot>, t: seq<Slot>)
    ensures Present(s + t) == Present(s) + Present(t)
  {
    if t == [] {
      assert s + t == s;
    } else {
      var t0 := t[..|t| - 1];
      assert (s + t)[..|s + t| - 1] == s + t0;
      PresentAppend(s, t0);
    }
  }

  /** A placeholder contributes nothing and an artifact contributes itself. */
  lemma PresentSingle(x: Slot)
    ensures Present([x]) == if x.Some? then [x.value] else []
  {
    assert [x][..0] == [];
  }

  // ---------------------------------------------------------------- creation

  /** A created file: its position is the old list length, and its slot is appended. */
  function Created(r: Registry, file: string, slot: Slot): (r': Registry)
    ensures |r'.contracts| == |r.contracts| + 1
    ensures r'.contracts[..|r.contracts|] == r.contracts && r'.contracts[|r.contracts|] == slot
    ensures r'.index.Keys == r.index.Keys + {file} && r'.index[file] == |r.contracts|
    ensures forall f :: f in r.index && f != file ==> r'.index[f] == r.index[f]
  {
    Registry(r.contracts + [slot], r.index[file := |r.contracts|])
  }

  /** Creation keeps the index usable, also when `file` already had an entry. */
  lemma CreatedKeepsConsistent(r: Registry, file: string, slot: Slot)
    requires Consistent(r)
    ensures Consistent(Created(r, file, slot))
    ensures |Created(r, file, slot).contracts| == |r.contracts| + 1
  {
  }

  // ---------------------------------------------------------------- deletion

  function Min(a: nat, b: nat): nat { if a < b then a else b }

  /**
   * A deleted file, as `contracts.splice(fileToContractIdx[file])` does it:
   * with a single argument `splice` drops every slot from the start position
   * to the end; a start past the end is clamped to the length, and a missing
   * entry (`undefined`) starts at 0. Nothing is re-indexed.
   */
  function Deleted(r: Registry, file: string): (r': Registry)
    ensures r'.index == r.index - {file}
    ensures r'.contracts <= r.contracts
    ensures |r'.contracts| == if file in r.index then Min(r.index[file], |r.contracts|) else 0
  {
    var start := if file in r.index then Min(r.index[file], |r.contracts|) else 0;
    Registry(r.contracts[..start], r.index - {file})
  }

  /** Deleting the file in the last slot keeps the index usable. */
  lemma DeletedLastKeepsConsistent(r: Registry, file: string)
    requires Consistent(r)
    requires file in r.index && r.index[file] == |r.contracts| - 1
    ensures Consistent(Deleted(r, file))
    ensures Deleted(r, file).contracts == r.contracts[..|r.contracts| - 1]
  {
    var r' := Deleted(r, file);
    forall f | f in r'.index
      ensures r'.index[f] < |r'.contracts|
    {
      assert f != file && r.index[f] != r.index[file];
    }
  }

  /**
   * Three files scanned at positions 0, 1, 2; deleting the first one empties
   * the list and leaves the other two pointing past its end.
   */
  lemma DeletingFirstOfThree(a: Slot, b: Slot, c: Slot)
    ensures var r := Registry([a, b, c], map["A.json" := 0, "B.json" := 1, "C.json" := 2]);
            && Consistent(r)
            && Deleted(r, "A.json") == Registry([], map["B.json" := 1, "C.json" := 2])
            && !Consistent(Deleted(r, "A.json"))
  {
    var r := Registry([a, b, c], map["A.json" := 0, "B.json" := 1, "C.json" := 2]);
    assert "A.json"[0] != "B.json"[0] && "A.json"[0] != "C.json"[0] && "B.json"[0] != "C.json"[0];
    assert r.index - {"A.json"} == map["B.json" := 1, "C.json" := 2];
    assert "B.json" in Deleted(r, "A.json").index;
  }

  /** A deletion for a file that has no index entry drops every slot. */
  lemma DeletingUnknownEmpties(r: Registry, file: string)
    requires file !in r.index
    ensures Deleted(r, file) == Registry([], r.index)
  {
    assert r.index - {file} == r.index;
  }

  // ------------------------------------------------------- corrected deletion

  /**
   * The intended single-slot removal with re-indexing: remove exactly the file's slot and
   * shift every later position down by one. A file without a usable entry
   * only loses its entry.
   */
  function Removed(r: Registry, file: string): (r': Registry)
    ensures r'.index.Keys == r.index.Keys - {file}
    ensures |r'.contracts| == if file in r.index && r.index[file] < |r.contracts| then |r.contracts| - 1 else |r.contracts|
    ensures file in r.index && r.index[file] < |r.contracts| ==>
              && (forall j :: 0 <= j < |r'.contracts| ==>
                    r'.contracts[j] == r.contracts[if j < r.index[file] then j else j + 1])
              && (forall f :: f in r'.index ==>
                    r'.index[f] == if r.index[f] > r.index[file] then r.index[f] - 1 else r.index[f])
    ensures !(file in r.index && r.index[file] < |r.contracts|) ==> r'.contracts == r.contracts && r'.index == r.index - {file}
  {
    if file !in r.index || r.index[file] >= |r.contracts| then
      Registry(r.contracts, r.index - {file})
    else
      var p := r.index[file];
      Registry(r.contracts[..p] + r.contracts[p + 1..],
               map f | f in r.index && f != file :: if r.index[f] > p then r.index[f] - 1 else r.index[f])
  }

  /**
   * Corrected deletion keeps the index usable, shortens the list by one slot,
   * drops only `file` from the index, and leaves every other file naming the
   * same slot content as before.
   */
  lemma RemovedKeepsConsistent(r: Registry, file: string)
    requires Consistent(r)
    ensures var r' := Removed(r, file);
            && Consistent(r')
            && r'.index.Keys == r.index.Keys - {file}
            && |r'.contracts| == (if file in r.index then |r.contracts| - 1 else |r.contracts|)
            && (forall f :: f in r'.index ==> r'.contracts[r'.index[f]] == r.contracts[r.index[f]])
            && (file in r.index ==>
                  && r'.contracts == r.contracts[..r.index[file]] + r.contracts[r.index[file] + 1..]
                  && (forall f :: f in r'.index ==>
                        r'.index[f] == if r.index[f] > r.index[file] then r.index[f] - 1 else r.index[f]))
  {
    if file in r.index {
      var p := r.index[file];
      var r' := Removed(r, file);
      forall f | f in r'.index
        ensures r'.index[f] < |r'.contracts|
        ensures r'.contracts[r'.index[f]] == r.contracts[r.index[f]]
      {
        assert r.index[f] != p;
      }
      forall f, g | f in r'.index && g in r'.index && f != g
        ensures r'.index[f] != r'.index[g]
      {
        assert r.index[f] != p && r.index[g] != p && r.index[f] != r.index[g];
      }
    }
  }

  /** Deleting the first of three files with the corrected rule re-indexes the other two. */
  lemma RemovingFirstOfThree(a: Slot, b: Slot, c: Slot)
    ensures Removed(Registry([a, b, c], map["A.json" := 0, "B.json" := 1, "C.json" := 2]), "A.json")
            == Registry([b, c], map["B.json" := 0, "C.json" := 1])
  {
    var r := Registry([a, b, c], map["A.json" := 0, "B.json" := 1, "C.json" := 2]);
    assert "A.json"[0] != "B.json"[0] && "A.json"[0] != "C.json"[0] && "B.json"[0] != "C.json"[0];
    var r' := Removed(r, "A.json");
    assert r'.contracts == [b, c];
    assert r'.index.Keys == {"B.json", "C.json"};
    assert r'.index == map["B.json" := 0, "C.json" := 1];
  }

  // ------------------------------------------------------------ modification

  /**
   * JavaScript's `s[i] = v` on an array: replaces slot `i` when it exists,
   * and otherwise grows the array to `i + 1` slots, the new ones before `i`
   * being holes. `filter` skips holes as it drops nulls, and every other use
   * here only counts slots, so a hole is modelled as a null slot.
   */
  function Assigned(s: seq<Slot>, i: nat, v: Slot): (t: seq<Slot>)
    ensures |t| == if i < |s| then |s| else i + 1
    ensures t[i] == v
    ensures forall j :: 0 <= j < |s| && j != i ==> t[j] == s[j]
    ensures forall j :: |s| <= j < i ==> t[j] == None
  {
    if i < |s| then s[i := v] else s + seq(i - |s|, _ => None) + [v]
  }

  /**
   * A modified file: its recorded slot receives the new read result. For a
   * file without an entry the assignment `contracts[undefined] = ...` sets a
   * property no list operation sees, so no slot changes.
   */
  function Modified(r: Registry, file: string, slot: Slot): (r': Registry)
    ensures r'.index == r.index
    ensures file !in r.index ==> r' == r
    ensures file in r.index ==>
              && |r'.contracts| == (if r.index[file] < |r.contracts| then |r.contracts| else r.index[file] + 1)
              && r'.contracts[r.index[file]] == slot
              && (forall j :: 0 <= j < |r.contracts| && j != r.index[file] ==> r'.contracts[j] == r.contracts[j])
  {
    if file in r.index then Registry(Assigned(r.contracts, r.index[file], slot), r.index) else r
  }

  /**
   * On a usable index, modification keeps the list length and the index, and
   * changes at most the slot recorded for `file`.
   */
  lemma ModifiedKeepsConsistent(r: Registry, file: string, slot: Slot)
    requires Consistent(r)
    ensures var r' := Modified(r, file, slot);
            && Consistent(r')
            && r'.index == r.index
            && |r'.contracts| == |r.contracts|
            && (forall j :: 0 <= j < |r.contracts| && (file !in r.index || j != r.index[file]) ==> r'.contracts[j] == r.contracts[j])
            && (file in r.index ==> r'.contracts[r.index[file]] == slot)
  {
  }

  /**
   * After deleting the middle of three files, modifying the last one writes
   * past the end of the truncated list and leaves a hole before it.
   */
  lemma ModifyingAfterDeletingMiddle(a: Slot, b: Slot, c: Slot, c': Slot)
    ensures var r := Deleted(Registry([a, b, c], map["A.json" := 0, "B.json" := 1, "C.json" := 2]), "B.json");
            Modified(r, "C.json", c') == Registry([a, None, c'], map["A.json" := 0, "C.json" := 2])
  {
    var r0 := Registry([a, b, c], map["A.json" := 0, "B.json" := 1, "C.json" := 2]);
    assert "A.json"[0] != "B.json"[0] && "A.json"[0] != "C.json"[0] && "B.json"[0] != "C.json"[0];
    var r := Deleted(r0, "B.json");
    assert r.index == map["A.json" := 0, "C.json" := 2];
    assert r.contracts == [a];
    assert Assigned([a], 2, c') == [a, None, c'];
  }

  // ---------------------------------------------------------------- events

  /**
   * `handleContractFileEvent(kind, file)` read against the artifacts
   * directory `dir`: only ".json" names are handled; a rename is a creation
   * when the file now exists and a deletion otherwise; a change re-reads the
   * file into its slot.
   */
  function AfterEvent(r: Registry, kind: EventKind, file: string, disk: Disk, dir: string, networkId: string): (r': Registry)
    ensures !IsJson(file) ==> r' == r
    ensures IsJson(file) && kind == Change ==> r'.index == r.index
    ensures IsJson(file) && kind == Rename ==> (file in r'.index <==> disk.isPresent(Join(dir, file)))
    ensures IsJson(file) && kind == Rename && disk.isPresent(Join(dir, file)) ==>
              && r'.index[file] == |r.contracts| && |r'.contracts| == |r.contracts| + 1
              && r'.contracts[|r.contracts|] == ReadContract(disk, dir, networkId, file)
    ensures IsJson(file) && kind == Rename && !disk.isPresent(Join(dir, file)) ==> r'.contracts <= r.contracts
  {
    if !IsJson(file) then r
    else
      match kind
      case Rename =>
        if disk.isPresent(Join(dir, file)) then Created(r, file, ReadContract(disk, dir, networkId, file))
        else Deleted(r, file)
      case Change => Modified(r, file, ReadContract(disk, dir, networkId, file))
  }

  /** Every event except a deletion keeps the index usable. */
  lemma EventKeepsConsistent(r: Registry, kind: EventKind, file: string, disk: Disk, dir: string, networkId: string)
    requires Consistent(r)
    requires !(IsJson(file) && kind == Rename && !disk.isPresent(Join(dir, file)))
    ensures Consistent(AfterEvent(r, kind, file, disk, dir, networkId))
    ensures !IsJson(file) ==> AfterEvent(r, kind, file, disk, dir, networkId) == r
  {
    if IsJson(file) {
      var slot := ReadContract(disk, dir, networkId, file);
      match kind
      case Rename => CreatedKeepsConsistent(r, file, slot);
      case Change => ModifiedKeepsConsistent(r, file, slot);
    }
  }

  /** The same event rules with the corrected deletion. */
  function AfterEventCorrected(r: Registry, kind: EventKind, file: string, disk: Disk, dir: string, networkId: string): (r': Registry)
    ensures !(IsJson(file) && kind == Rename && !disk.isPresent(Join(dir, file))) ==>
              r' == AfterEvent(r, kind, file, disk, dir, networkId)
    ensures IsJson(file) && kind == Rename && !disk.isPresent(Join(dir, file)) ==> r' == Removed(r, file)
  {
    if IsJson(file) && kind == Rename && !disk.isPresent(Join(dir, file)) then Removed(r, file)
    else AfterEvent(r, kind, file, disk, dir, networkId)
  }

  /** With the corrected deletion, every event keeps the index usable. */
  lemma EventCorrectedKeepsConsistent(r: Registry, kind: EventKind, file: string, disk: Disk, dir: string, networkId: string)
    requires Consistent(r)
    ensures Consistent(AfterEventCorrected(r, kind, file, disk, dir, networkId))
  {
    if IsJson(file) && kind == Rename && !disk.isPresent(Join(dir, file)) {
      RemovedKeepsConsistent(r, file);
    } else {
      EventKeepsConsistent(r, kind, file, disk, dir, networkId);
    }
  }

  // ---------------------------------------------------------------- scans

  /** The ".json" names of a listing, in listing order. */
  function JsonNames(files: seq<string>): (names: seq<string>)
    ensures |names| <= |files|
    ensures forall n :: n in names <==> n in files && IsJson(n)
  {
    if files == [] then []
    else
      var f := files[|files| - 1];
      assert files == files[..|files| - 1] + [f];
      JsonNames(files[..|files| - 1]) + (if IsJson(f) then [f] else [])
  }

  /** Concatenating listings concatenates their ".json" names. */
  lemma {:induction false} JsonNamesAppend(s: seq<string>, t: seq<string>)
    ensures JsonNames(s + t) == JsonNames(s) + JsonNames(t)
  {
    if t == [] {
      assert s + t == s;
    } else {
      var t0 := t[..|t| - 1];
      assert (s + t)[..|s + t| - 1] == s + t0 && (s + t)[|s + t| - 1] == t[|t| - 1];
      JsonNamesAppend(s, t0);
    }
  }

  /** The `for` loop of `readContracts` over `files`, starting from `r`. */
  function Scanned(r: Registry, files: seq<string>, disk: Disk, dir: string, networkId: string): (r': Registry)
    ensures |r'.contracts| == |r.contracts| + |JsonNames(files)|
    ensures r'.contracts[..|r.contracts|] == r.contracts
  {
    if files == [] then r
    else
      var r0 := Scanned(r, files[..|files| - 1], disk, dir, networkId);
      var f := files[|files| - 1];
      if IsJson(f) then Created(r0, f, ReadContract(disk, dir, networkId, f)) else r0
  }

  /** Directory listings never repeat a name. */
  ghost predicate NoDuplicates(files: seq<string>) {
    forall i, j :: 0 <= i < j < |files| ==> files[i] != files[j]
  }

  /**
   * A scan into an empty registry gives one slot per ".json" name in listing
   * order, holding that file's read result (null when it did not parse), and
   * indexes exactly those names, the k-th at position k.
   */
  lemma {:induction false} ScannedFromEmpty(files: seq<string>, disk: Disk, dir: string, networkId: string)
    requires NoDuplicates(files)
    ensures var r := Scanned(Empty, files, disk, dir, networkId);
            var names := JsonNames(files);
            && |r.contracts| == |names|
            && (forall k :: 0 <= k < |names| ==>
                  names[k] in r.index && r.index[names[k]] == k &&
                  r.contracts[k] == ReadContract(disk, dir, networkId, names[k]))
            && (forall f :: f in r.index <==> f in names)
  {
    if files != [] {
      var init := files[..|files| - 1];
      var f := files[|files| - 1];
      assert files == init + [f];
      ScannedFromEmpty(init, disk, dir, networkId);
      assert f !in init;
    }
  }

  /** A scan keeps a usable index usable. */
  lemma {:induction false} ScannedKeepsConsistent(r: Registry, files: seq<string>, disk: Disk, dir: string, networkId: string)
    requires Consistent(r)
    ensures Consistent(Scanned(r, files, disk, dir, networkId))
  {
    if files != [] {
      var init := files[..|files| - 1];
      var f := files[|files| - 1];
      ScannedKeepsConsistent(r, init, disk, dir, networkId);
      if IsJson(f) {
        CreatedKeepsConsistent(Scanned(r, init, disk, dir, networkId), f, ReadContract(disk, dir, networkId, f));
      }
    }
  }

  /** The example of a valid artifact deployed on network "5" next to a malformed one. */
  function ScenarioDisk(a: Artifact): Disk {
    Disk(p => true, p => ["A.json", "B.json"], p => if p == "d/A.json" then Some(a) else None)
  }

  /** The scan of the scenario directory `d`: a slot for A followed by a null slot for B. */
  lemma ScenarioScan(a: Artifact)
    ensures Scanned(Empty, ["A.json", "B.json"], ScenarioDisk(a), "d", "5").contracts
            == [Decorate(Some(a), "5"), None]
  {
    var disk := ScenarioDisk(a);
    var files := ["A.json", "B.json"];
    assert files[..1] == ["A.json"] && files[..1][..0] == [];
    assert IsJson("A.json") && IsJson("B.json");
    assert Join("d", "B.json") != "d/A.json" by {
      assert Join("d", "B.json")[2] != "d/A.json"[2];
    }
    assert Scanned(Empty, ["A.json"], disk, "d", "5").contracts == [Decorate(Some(a), "5")];
  }

  /**
   * Scanning `A.json` (deployed on network "5" at "0xAA") and a malformed
   * `B.json` for network "5": the snapshot holds only A, decorated with
   * address "0xAA".
   */
  lemma ScenarioValidAndMalformed(a: Artifact)
    requires a.networks == Some(map["5" := Deployment(Some("0xAA"), Some("0x01"))])
    ensures var snapshot := Present(Scanned(Empty, ["A.json", "B.json"], ScenarioDisk(a), "d", "5").contracts);
            && |snapshot| == 1
            && snapshot[0].address == Some("0xAA")
            && snapshot[0].creationTxHash == Some("0x01")
            && snapshot[0].metadata == a.metadata
  {
    ScenarioScan(a);
    var slot := Decorate(Some(a), "5");
    PresentAppend([slot], [None]);
    PresentSingle(slot);
    PresentSingle(None);
  }
}
