/**
 * CodeInspector: the registry that hands out inspections and arbitrates
 * file access by file blockings — many readers or one writer per path —
 * and issues increasing inspection IDs.
 */
module Inspector {
  import opened Common
  import opened Inspection

  /** FileBlocking: an inspection (by ID) holding a path in a mode. */
  datatype FileBlocking = FileBlocking(CodeInspectionID: nat, Path: string, Mode: InspectionMode)

  // ------------------------------------------------------------ list queries

  /** TryFindFileBlockings: the blockings on `path`, in list order (List.FindAll). */
  function BlockingsOn(bs: seq<FileBlocking>, path: string): (r: seq<FileBlocking>)
    ensures forall b :: b in r <==> b in bs && b.Path == path
    ensures |r| <= |bs|
    decreases |bs|
  {
    if bs == [] then []
    else BlockingsOn(bs[..|bs| - 1], path) + (if bs[|bs| - 1].Path == path then [bs[|bs| - 1]] else [])
  }

  /** `fileBlockings.RemoveAll(fb => fb.CodeInspectionID == id)`: the list without the inspection's blockings. */
  function WithoutID(bs: seq<FileBlocking>, id: nat): (r: seq<FileBlocking>)
    ensures forall b :: b in r <==> b in bs && b.CodeInspectionID != id
    ensures |r| <= |bs|
    decreases |bs|
  {
    if bs == [] then []
    else WithoutID(bs[..|bs| - 1], id) + (if bs[|bs| - 1].CodeInspectionID == id then [] else [bs[|bs| - 1]])
  }

  /** The blockings on the inspection's path held by some other inspection (the count GrantWritePermission tests). */
  function OtherBlockings(bs: seq<FileBlocking>, path: Option<string>, id: nat): (r: seq<FileBlocking>)
    ensures forall b :: b in r <==> b in bs && path == Some(b.Path) && b.CodeInspectionID != id
    decreases |bs|
  {
    if bs == [] then []
    else
      var b := bs[|bs| - 1];
      OtherBlockings(bs[..|bs| - 1], path, id) + (if path == Some(b.Path) && b.CodeInspectionID != id then [b] else [])
  }

  /** GetHighestBlockingMode: the mode of the first blocking on the path. */
  function HighestBlockingMode(found: seq<FileBlocking>): InspectionMode
    requires found != []
  {
    found[0].Mode
  }

  /** The decision of InspectFile: a path nobody holds, or a read next to readers. */
  predicate Admitted(found: seq<FileBlocking>, mode: InspectionMode) {
    found == [] || (HighestBlockingMode(found) == READ && mode == READ)
  }

  // ------------------------------------------------------------ invariants

  /** Each registered path is held by readers only, or by one writer alone. */
  predicate Exclusive(bs: seq<FileBlocking>) {
    forall a, b :: a in bs && b in bs && a != b && a.Path == b.Path ==> a.Mode == READ && b.Mode == READ
  }

  /** Blockings are listed in the order their IDs were issued, every ID between 1 and the counter. */
  predicate IssuedInOrder(bs: seq<FileBlocking>, counter: nat) {
    (forall i :: 0 <= i < |bs| ==> 1 <= bs[i].CodeInspectionID <= counter)
    && (forall i, j :: 0 <= i < j < |bs| ==> bs[i].CodeInspectionID < bs[j].CodeInspectionID)
  }

  /**
   * Only the first blocking is consulted, and that is enough: on a path whose
   * blockings are exclusive the first is a writer exactly when any is.
   */
  lemma FirstModeIsHighest(bs: seq<FileBlocking>, path: string)
    requires Exclusive(bs) && BlockingsOn(bs, path) != []
    ensures HighestBlockingMode(BlockingsOn(bs, path)) == READ_WRITE
            <==> exists b :: b in bs && b.Path == path && b.Mode == READ_WRITE
  {
    var found := BlockingsOn(bs, path);
    assert found[0] in found;
  }

  /**
   * Many readers or one writer: on exclusive blockings a request is admitted
   * exactly when no writer holds the path, and a writer only on a free path.
   */
  lemma AdmittedIffNoConflict(bs: seq<FileBlocking>, path: string, mode: InspectionMode)
    requires Exclusive(bs)
    ensures Admitted(BlockingsOn(bs, path), mode)
            <==> (forall b :: b in bs && b.Path == path ==> b.Mode == READ)
                 && (mode == READ_WRITE ==> forall b :: b in bs ==> b.Path != path)
  {
    var found := BlockingsOn(bs, path);
    if found != [] {
      FirstModeIsHighest(bs, path);
      assert found[0] in bs && found[0].Path == path;
    }
  }

  /** Admitting a request keeps the blockings exclusive. */
  lemma AdmissionKeepsExclusive(bs: seq<FileBlocking>, path: string, mode: InspectionMode, id: nat)
    requires Exclusive(bs) && Admitted(BlockingsOn(bs, path), mode)
    ensures Exclusive(bs + [FileBlocking(id, path, mode)])
  {
    AdmittedIffNoConflict(bs, path, mode);
  }

  /** Readers coexist: once a path is read, a further read is admitted and the writer is refused. */
  lemma ReadersCoexist(bs: seq<FileBlocking>, path: string, id: nat)
    requires Exclusive(bs) && Admitted(BlockingsOn(bs, path), READ)
    ensures Admitted(BlockingsOn(bs + [FileBlocking(id, path, READ)], path), READ)
    ensures !Admitted(BlockingsOn(bs + [FileBlocking(id, path, READ)], path), READ_WRITE)
  {
    var bs' := bs + [FileBlocking(id, path, READ)];
    AdmissionKeepsExclusive(bs, path, READ, id);
    AdmittedIffNoConflict(bs, path, READ);
    AdmittedIffNoConflict(bs', path, READ);
    AdmittedIffNoConflict(bs', path, READ_WRITE);
    assert FileBlocking(id, path, READ) in bs';
  }

  /** A writer shuts the path: after a write is admitted, nothing else is. */
  lemma WriterIsAlone(bs: seq<FileBlocking>, path: string, id: nat, mode: InspectionMode)
    requires Exclusive(bs) && Admitted(BlockingsOn(bs, path), READ_WRITE)
    ensures !Admitted(BlockingsOn(bs + [FileBlocking(id, path, READ_WRITE)], path), mode)
  {
    var bs' := bs + [FileBlocking(id, path, READ_WRITE)];
    AdmissionKeepsExclusive(bs, path, READ_WRITE, id);
    AdmittedIffNoConflict(bs', path, mode);
    assert FileBlocking(id, path, READ_WRITE) in bs';
  }

  /** RemoveAll keeps the blockings exclusive and in issue order. */
  lemma WithoutIDKeepsInvariants(bs: seq<FileBlocking>, id: nat, counter: nat)
    requires Exclusive(bs) && IssuedInOrder(bs, counter)
    ensures Exclusive(WithoutID(bs, id)) && IssuedInOrder(WithoutID(bs, id), counter)
  {
    WithoutIDIssuedInOrder(bs, id, counter);
  }

  lemma {:induction false} WithoutIDIssuedInOrder(bs: seq<FileBlocking>, id: nat, counter: nat)
    requires IssuedInOrder(bs, counter)
    ensures IssuedInOrder(WithoutID(bs, id), counter)
    decreases |bs|
  {
    if bs != [] {
      var pre := bs[..|bs| - 1];
      var last := bs[|bs| - 1];
      assert IssuedInOrder(pre, counter) by {
        forall i, j | 0 <= i < j < |pre| ensures pre[i].CodeInspectionID < pre[j].CodeInspectionID {
          assert pre[i] == bs[i] && pre[j] == bs[j];
        }
      }
      WithoutIDIssuedInOrder(pre, id, counter);
      if last.CodeInspectionID != id {
        EarlierIDsAreSmaller(bs, id, counter);
        AppendLargerKeepsOrder(WithoutID(pre, id), last, counter);
        assert WithoutID(bs, id) == WithoutID(pre, id) + [last];
      }
    }
  }

  /** What survives RemoveAll of all but the last blocking was issued before the last one. */
  lemma EarlierIDsAreSmaller(bs: seq<FileBlocking>, id: nat, counter: nat)
    requires IssuedInOrder(bs, counter) && bs != []
    ensures forall b :: b in WithoutID(bs[..|bs| - 1], id) ==> b.CodeInspectionID < bs[|bs| - 1].CodeInspectionID
  {
    var pre := bs[..|bs| - 1];
    forall b | b in WithoutID(pre, id) ensures b.CodeInspectionID < bs[|bs| - 1].CodeInspectionID {
      var i :| 0 <= i < |pre| && pre[i] == b;
      assert bs[i] == pre[i];
    }
  }

  lemma AppendLargerKeepsOrder(r: seq<FileBlocking>, last: FileBlocking, counter: nat)
    requires IssuedInOrder(r, counter) && 1 <= last.CodeInspectionID <= counter
    requires forall b :: b in r ==> b.CodeInspectionID < last.CodeInspectionID
    ensures IssuedInOrder(r + [last], counter)
  {
    var s := r + [last];
    forall i, j | 0 <= i < j < |s| ensures s[i].CodeInspectionID < s[j].CodeInspectionID {
      if j == |r| {
        assert s[i] == r[i] && r[i] in r;
      } else {
        assert s[i] == r[i] && s[j] == r[j];
      }
    }
  }

  /** Issuing the next ID and appending its blocking keeps the blockings in issue order. */
  lemma AppendKeepsIssuedInOrder(bs: seq<FileBlocking>, counter: nat, path: string, mode: InspectionMode)
    requires IssuedInOrder(bs, counter)
    ensures IssuedInOrder(bs + [FileBlocking(counter + 1, path, mode)], counter + 1)
  {
  }

  /** Every blocking names an ID already issued, so the next ID is not yet in use. */
  lemma NextIDIsFresh(bs: seq<FileBlocking>, counter: nat)
    requires IssuedInOrder(bs, counter)
    ensures forall b :: b in bs ==> b.CodeInspectionID != counter + 1
  {
  }

  // ------------------------------------------------------------ upgrading a reader

  /**
   * After a registry upgrade of inspection `id` on `path` (no other inspection
   * holds the path), the stored blocking still says READ, so a new reader of
   * the path is admitted next to the writer.
   */
  lemma UpgradeLeavesPathOpenToReaders()
    ensures var bs := [FileBlocking(1, "Assets/A.cs", READ)];
            OtherBlockings(bs, Some("Assets/A.cs"), 1) == []
            && Admitted(BlockingsOn(bs, "Assets/A.cs"), READ)
  {
    var bs := [FileBlocking(1, "Assets/A.cs", READ)];
    assert bs[..0] == [];
    assert OtherBlockings(bs, Some("Assets/A.cs"), 1) == [];
    assert BlockingsOn(bs, "Assets/A.cs") == [FileBlocking(1, "Assets/A.cs", READ)];
  }

  /** The blockings with the upgraded inspection's blocking on `path` recorded as a writer. */
  function Upgraded(bs: seq<FileBlocking>, id: nat, path: string): (r: seq<FileBlocking>)
    ensures |r| == |bs|
    ensures forall i :: 0 <= i < |bs| ==> r[i].CodeInspectionID == bs[i].CodeInspectionID && r[i].Path == bs[i].Path
    ensures forall i :: 0 <= i < |bs| ==>
              r[i].Mode == (if bs[i].CodeInspectionID == id && bs[i].Path == path then READ_WRITE else bs[i].Mode)
  {
    seq(|bs|, i requires 0 <= i < |bs| =>
      if bs[i].CodeInspectionID == id && bs[i].Path == path then bs[i].(Mode := READ_WRITE) else bs[i])
  }

  /** Recording the upgrade keeps the registry invariants. */
  lemma UpgradedKeepsInvariants(bs: seq<FileBlocking>, id: nat, path: string, counter: nat)
    requires Exclusive(bs) && IssuedInOrder(bs, counter) && OtherBlockings(bs, Some(path), id) == []
    ensures Exclusive(Upgraded(bs, id, path)) && IssuedInOrder(Upgraded(bs, id, path), counter)
  {
    UpgradedExclusive(bs, id, path);
    UpgradedIssuedInOrder(bs, id, path, counter);
  }

  lemma UpgradedIssuedInOrder(bs: seq<FileBlocking>, id: nat, path: string, counter: nat)
    requires IssuedInOrder(bs, counter)
    ensures IssuedInOrder(Upgraded(bs, id, path), counter)
  {
  }

  lemma UpgradedExclusive(bs: seq<FileBlocking>, id: nat, path: string)
    requires Exclusive(bs) && OtherBlockings(bs, Some(path), id) == []
    ensures Exclusive(Upgraded(bs, id, path))
  {
    UpgradedPathIsWritten(bs, id, path);
    UpgradedElsewhereUnchanged(bs, id, path);
  }

  /** Blockings on other paths are the ones that were there. */
  lemma UpgradedElsewhereUnchanged(bs: seq<FileBlocking>, id: nat, path: string)
    ensures forall b :: b in Upgraded(bs, id, path) && b.Path != path ==> b in bs
  {
    var r := Upgraded(bs, id, path);
    forall b | b in r && b.Path != path ensures b in bs {
      var k :| 0 <= k < |r| && r[k] == b;
      assert bs[k] == b;
    }
  }

  /** After the upgrade every blocking on the path is the writer's own. */
  lemma UpgradedPathIsWritten(bs: seq<FileBlocking>, id: nat, path: string)
    requires OtherBlockings(bs, Some(path), id) == []
    ensures forall b :: b in Upgraded(bs, id, path) && b.Path == path ==> b == FileBlocking(id, path, READ_WRITE)
  {
    var r := Upgraded(bs, id, path);
    forall b | b in r && b.Path == path ensures b == FileBlocking(id, path, READ_WRITE) {
      var k :| 0 <= k < |r| && r[k] == b;
      assert bs[k] in bs;
    }
  }

  /**
   * With the upgrade recorded, the path is shut: no request of either mode is
   * admitted while the writer holds it.
   */
  lemma RecordedUpgradeShutsPath(bs: seq<FileBlocking>, id: nat, path: string, mode: InspectionMode)
    requires OtherBlockings(bs, Some(path), id) == [] && BlockingsOn(bs, path) != []
    ensures !Admitted(BlockingsOn(Upgraded(bs, id, path), path), mode)
  {
    var r := Upgraded(bs, id, path);
    UpgradedPathIsWritten(bs, id, path);
    var b0 := BlockingsOn(bs, path)[0];
    assert b0 in BlockingsOn(bs, path);
    var i :| 0 <= i < |bs| && bs[i] == b0;
    assert r[i] in r && r[i].Path == path;
    var found := BlockingsOn(r, path);
    assert found != [];
    assert found[0] in found;
  }

  // ------------------------------------------------------------ the registry

  /** The static registry as an object: its blocking list and its ID counter. */
  class CodeInspector {
    var fileBlockings: seq<FileBlocking>
    var inspectionIDCounter: nat

    predicate WellFormed()
      reads this
    {
      Exclusive(fileBlockings) && IssuedInOrder(fileBlockings, inspectionIDCounter)
    }

    /** The registry at load time: no blockings, and no ID issued yet. */
    constructor ()
      ensures WellFormed() && fileBlockings == [] && inspectionIDCounter == 0
    {
      fileBlockings := [];
      inspectionIDCounter := 0;
    }

    /** GetNextInspectionID: `++inspectionIDCounter`, so IDs start at 1 and strictly increase. */
    method GetNextInspectionID() returns (id: nat)
      modifies this`inspectionIDCounter
      ensures inspectionIDCounter == old(inspectionIDCounter) + 1 && id == inspectionIDCounter
      ensures id > old(inspectionIDCounter) && id >= 1
    {
      inspectionIDCounter := inspectionIDCounter + 1;
      id := inspectionIDCounter;
    }

    /** InspectText: a TEXT, READ_WRITE inspection with the next ID; no blocking is added. */
    method InspectText(text: string) returns (ci: CodeInspection)
      requires WellFormed()
      modifies this`inspectionIDCounter
      ensures WellFormed() && fileBlockings == old(fileBlockings)
      ensures inspectionIDCounter == old(inspectionIDCounter) + 1
      ensures fresh(ci) && ci.Valid() && ci.CodeInspectionID == inspectionIDCounter
      ensures ci.Type == TEXT && ci.Mode == READ_WRITE && ci.CompleteCode == text
      ensures ci.codePiecesList == [] && !ci.editationActive && ci.settings == DefaultSettings
    {
      var id := GetNextInspectionID();
      ci := new CodeInspection(id, READ_WRITE, TEXT, text, None);
    }

    /**
     * CreateNewFileCodeInspection: the next ID, its blocking (added first),
     * then the inspection; the constructor may still refuse the path or the
     * file, leaving the blocking in place.
     */
    method CreateNewFileCodeInspection(mode: InspectionMode, path: string, fileContent: Option<string>)
      returns (r: Outcome<CodeInspection>)
      requires WellFormed() && Admitted(BlockingsOn(fileBlockings, path), mode)
      modifies this
      ensures WellFormed()
      ensures inspectionIDCounter == old(inspectionIDCounter) + 1
      ensures fileBlockings == old(fileBlockings) + [FileBlocking(inspectionIDCounter, path, mode)]
      ensures r.Throw? <==> path == "" || fileContent.None?
      ensures r.Throw? ==> r.fault == ArgumentError
      ensures r.Return? ==> fresh(r.value) && r.value.Valid() && r.value.CodeInspectionID == inspectionIDCounter
                            && r.value.Type == FILE && r.value.Mode == mode && r.value.Path == Some(path)
                            && r.value.CompleteCode == fileContent.value && r.value.codePiecesList == []
                            && !r.value.editationActive && r.value.settings == DefaultSettings
    {
      var nextInspectionID := AddFileBlocking(mode, path);
      r := NewCodeInspection(nextInspectionID, mode, FILE, Some(path), fileContent);
    }

    /** The first two steps of CreateNewFileCodeInspection: the next ID, and its blocking appended. */
    method AddFileBlocking(mode: InspectionMode, path: string) returns (id: nat)
      requires WellFormed() && Admitted(BlockingsOn(fileBlockings, path), mode)
      modifies this
      ensures WellFormed()
      ensures inspectionIDCounter == old(inspectionIDCounter) + 1 && id == inspectionIDCounter
      ensures fileBlockings == old(fileBlockings) + [FileBlocking(id, path, mode)]
    {
      ghost var bs := fileBlockings;
      ghost var counter := inspectionIDCounter;
      id := GetNextInspectionID();
      AdmissionKeepsExclusive(bs, path, mode, id);
      AppendKeepsIssuedInOrder(bs, counter, path, mode);
      fileBlockings := fileBlockings + [FileBlocking(id, path, mode)];
    }

    /**
     * InspectFile: consults the first blocking on the path. A writer there, or
     * a write request next to readers, is refused with null and changes
     * nothing; otherwise a new FILE inspection is created.
     */
    method InspectFile(path: string, mode: InspectionMode, fileContent: Option<string>)
      returns (r: Outcome<CodeInspection?>)
      requires WellFormed()
      modifies this
      ensures WellFormed()
      ensures !Admitted(BlockingsOn(old(fileBlockings), path), mode) ==> r == Return(null) && unchanged(this)
      ensures Admitted(BlockingsOn(old(fileBlockings), path), mode) ==>
                inspectionIDCounter == old(inspectionIDCounter) + 1
                && fileBlockings == old(fileBlockings) + [FileBlocking(inspectionIDCounter, path, mode)]
                && (r.Throw? <==> path == "" || fileContent.None?)
                && (r.Return? ==> r.value != null && fresh(r.value) && r.value.Valid()
                                  && r.value.CodeInspectionID == inspectionIDCounter
                                  && r.value.Type == FILE && r.value.Mode == mode && r.value.Path == Some(path)
                                  && r.value.CompleteCode == fileContent.value && r.value.codePiecesList == []
                                  && !r.value.editationActive && r.value.settings == DefaultSettings)
    {
      var foundFileBlockings := BlockingsOn(fileBlockings, path);
      if |foundFileBlockings| > 0 {
        var currentMode := HighestBlockingMode(foundFileBlockings);
        if currentMode == READ_WRITE {
          return Return(null);
        } else if mode == READ {
          var created := CreateNewFileCodeInspection(mode, path, fileContent);
          return match created case Return(ci) => Return(ci) case Throw(f) => Throw(f);
        } else {
          return Return(null);
        }
      }
      var created := CreateNewFileCodeInspection(mode, path, fileContent);
      return match created case Return(ci) => Return(ci) case Throw(f) => Throw(f);
    }

    /**
     * StopFileInspection: nothing for a TEXT or an inactive inspection;
     * otherwise removes every blocking with its ID and, if there was one,
     * sets the inspection inactive.
     */
    method StopFileInspection(ci: CodeInspection)
      requires WellFormed() && ci.Valid()
      modifies this`fileBlockings, ci`CodeInspectionID
      ensures WellFormed() && ci.Valid()
      ensures old(ci.Type == TEXT || ci.CodeInspectionID == 0) ==>
                fileBlockings == old(fileBlockings) && ci.CodeInspectionID == old(ci.CodeInspectionID)
      ensures old(ci.Type == FILE && ci.CodeInspectionID != 0) ==>
                fileBlockings == WithoutID(old(fileBlockings), old(ci.CodeInspectionID))
                && (ci.CodeInspectionID == 0 <==> |fileBlockings| < |old(fileBlockings)|)
                && (ci.CodeInspectionID != 0 ==> ci.CodeInspectionID == old(ci.CodeInspectionID))
    {
      if ci.Type == TEXT {
        return;
      }
      if ci.CodeInspectionID == 0 {
        return;
      }
      var before := |fileBlockings|;
      WithoutIDKeepsInvariants(fileBlockings, ci.CodeInspectionID, inspectionIDCounter);
      fileBlockings := WithoutID(fileBlockings, ci.CodeInspectionID);
      if before - |fileBlockings| > 0 {
        ci.SetInactive();
      }
    }

    /**
     * GrantWritePermission: true at once for a writer; false while another
     * inspection holds a blocking on the same path; otherwise the inspection
     * upgrades itself. The stored blocking keeps its mode.
     */
    method GrantWritePermission(ci: CodeInspection) returns (r: bool)
      requires WellFormed() && ci.Valid()
      modifies ci`Mode, ci`codePiecesList, ci`editationActive
      ensures WellFormed() && ci.Valid() && fileBlockings == old(fileBlockings)
      ensures old(ci.Mode) == READ_WRITE ==> r && unchanged(ci)
      ensures old(ci.Mode) == READ && OtherBlockings(fileBlockings, ci.Path, ci.CodeInspectionID) != [] ==>
                !r && unchanged(ci)
      ensures old(ci.Mode) == READ && OtherBlockings(fileBlockings, ci.Path, ci.CodeInspectionID) == [] ==>
                r == old(ci.CanStartEditation())
                && (r ==> ci.Mode == READ_WRITE && ci.codePiecesList == [] && !ci.editationActive)
                && (!r ==> unchanged(ci))
    {
      if ci.Mode == READ_WRITE {
        return true;
      }
      var countOfOtherFileBlockings := |OtherBlockings(fileBlockings, ci.Path, ci.CodeInspectionID)|;
      if countOfOtherFileBlockings > 0 {
        return false;
      }
      r := ci.GrantWritePermission();
    }

    /**
     * GrantWritePermission as the registry's own invariant needs it: the same
     * decision, and a granted upgrade of a reader is also recorded in its
     * blocking, so later requests on the path are refused.
     */
    method GrantWritePermissionRecorded(ci: CodeInspection) returns (r: bool)
      requires WellFormed() && ci.Valid()
      modifies this`fileBlockings, ci`Mode, ci`codePiecesList, ci`editationActive
      ensures WellFormed() && ci.Valid()
      ensures old(ci.Mode) == READ_WRITE ==> r && unchanged(ci) && fileBlockings == old(fileBlockings)
      ensures old(ci.Mode) == READ && OtherBlockings(old(fileBlockings), ci.Path, ci.CodeInspectionID) != [] ==>
                !r && unchanged(ci) && fileBlockings == old(fileBlockings)
      ensures old(ci.Mode) == READ && OtherBlockings(old(fileBlockings), ci.Path, ci.CodeInspectionID) == [] ==>
                r == old(ci.CanStartEditation())
                && (r ==> ci.Mode == READ_WRITE && ci.codePiecesList == [] && !ci.editationActive
                          && fileBlockings == (if ci.Path.Some? then Upgraded(old(fileBlockings), ci.CodeInspectionID, ci.Path.value)
                                               else old(fileBlockings)))
                && (!r ==> unchanged(ci) && fileBlockings == old(fileBlockings))
    {
      if ci.Mode == READ_WRITE {
        return true;
      }
      var countOfOtherFileBlockings := |OtherBlockings(fileBlockings, ci.Path, ci.CodeInspectionID)|;
      if countOfOtherFileBlockings > 0 {
        return false;
      }
      r := ci.GrantWritePermission();
      if r && ci.Path.Some? {
        UpgradedKeepsInvariants(fileBlockings, ci.CodeInspectionID, ci.Path.value, inspectionIDCounter);
        fileBlockings := Upgraded(fileBlockings, ci.CodeInspectionID, ci.Path.value);
      }
    }
  }
}
