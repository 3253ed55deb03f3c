/** file-viewer/src/components/DeleteDialog.tsx: the password-protected
    dialog that deletes a file or folder, or moves a folder's contents
    elsewhere before deleting it. */
module DeleteDialog {
  import opened Wrappers
  import opened Strings

  const PASSWORD_REQUIRED: string := "Password is required"
  const DESTINATION_REQUIRED: string := "Please select a destination folder"
  const MOVE_FAILED: string := "Move failed"
  const OPERATION_FAILED: string := "Operation failed"

  datatype DeleteMode = DeleteMode | MoveMode

  /** An entry of `/api/folders`. */
  datatype AvailableFolder = AvailableFolder(name: string, path: string)

  datatype FolderContents = FolderContents(fileCount: nat, folderCount: nat)

  /** `folders.filter(folder => folder.path !== filePath)`. */
  function Destinations(folders: seq<AvailableFolder>, filePath: string): seq<AvailableFolder> {
    if folders == [] then []
    else
      var rest := Destinations(folders[..|folders| - 1], filePath);
      var last := folders[|folders| - 1];
      if last.path != filePath then rest + [last] else rest
  }

  /** The same filter written from the front, as `Array.prototype.filter`
      visits the folders. */
  function DestinationsInOrder(folders: seq<AvailableFolder>, filePath: string): seq<AvailableFolder> {
    if folders == [] then []
    else (if folders[0].path != filePath then [folders[0]] else []) + DestinationsInOrder(folders[1..], filePath)
  }

  lemma {:induction false} DestinationsInOrderAppend(a: seq<AvailableFolder>, b: seq<AvailableFolder>, filePath: string)
    ensures DestinationsInOrder(a + b, filePath) == DestinationsInOrder(a, filePath) + DestinationsInOrder(b, filePath)
    decreases |a|
  {
    if a == [] {
      assert a + b == b;
    } else {
      assert (a + b)[0] == a[0] && (a + b)[1..] == a[1..] + b;
      DestinationsInOrderAppend(a[1..], b, filePath);
    }
  }

  /** Built from the back or from the front, the filter is the same list. */
  lemma {:induction false} DestinationsKeepOrder(folders: seq<AvailableFolder>, filePath: string)
    ensures Destinations(folders, filePath) == DestinationsInOrder(folders, filePath)
    decreases |folders|
  {
    if folders != [] {
      var init := folders[..|folders| - 1];
      var last := folders[|folders| - 1];
      DestinationsKeepOrder(init, filePath);
      assert folders == init + [last];
      DestinationsInOrderAppend(init, [last], filePath);
      assert [last][1..] == [];
    }
  }

  /** The filter drops exactly the folders whose path is the one being
      deleted (in their order, by `DestinationsKeepOrder`); a subfolder of it
      has a longer path and so stays. */
  lemma {:induction false} DestinationsFilter(folders: seq<AvailableFolder>, filePath: string)
    ensures forall f :: f in Destinations(folders, filePath) <==> f in folders && f.path != filePath
    ensures |Destinations(folders, filePath)| <= |folders|
    ensures |Destinations(folders, filePath)| == |folders| <==> forall i :: 0 <= i < |folders| ==> folders[i].path != filePath
    ensures forall f :: f in folders && StartsWith(f.path, filePath + "/") ==> f in Destinations(folders, filePath)
    decreases |folders|
  {
    if folders != [] {
      var init := folders[..|folders| - 1];
      DestinationsFilter(init, filePath);
      assert folders == init + [folders[|folders| - 1]];
      forall f | f in folders && StartsWith(f.path, filePath + "/")
        ensures f.path != filePath
      {
        assert |f.path| > |filePath|;
      }
      if |Destinations(folders, filePath)| == |folders| {
        forall i | 0 <= i < |folders| ensures folders[i].path != filePath {
          if i < |folders| - 1 {
            assert folders[i] == init[i];
          }
        }
      }
    }
  }

  /** The request `handleDelete` sends: the move endpoint's body, or the
      password handed to the parent's `onConfirm`. */
  datatype DeleteRequest =
    | MoveContents(sourceFolderPath: string, destinationFolderPath: string, password: string)
    | ConfirmDelete(password: string)

  /** What the awaited call produced: success; a non-ok move response whose
      body has the `error` field given ("" when absent); or a thrown `Error`
      with a message (Some) or another value (None). */
  datatype DeleteOutcome = Succeeded | MoveNotOk(errorField: string) | Threw(message: Option<string>)

  /** The message the catch block shows: the move response's `error` field
      or "Move failed", and for a thrown value its message or "Operation
      failed". A failure is therefore never silent, unless an `Error` with an
      empty message was thrown. */
  function FailureMessage(outcome: DeleteOutcome): (message: string)
    requires !outcome.Succeeded?
    ensures message == "" <==> outcome == Threw(Some(""))
  {
    match outcome
    case MoveNotOk(e) => if e != "" then e else MOVE_FAILED
    case Threw(m) => if m.Some? then m.value else OPERATION_FAILED
  }

  /** The dialog, for the node at `filePath`, and its state fields. */
  class DialogState {
    const filePath: string
    const isDirectory: bool
    var password: string
    var showPassword: bool
    var error: string
    var deleting: bool
    var folderContents: Option<FolderContents>
    var loadingContents: bool
    var deleteMode: DeleteMode
    var availableFolders: seq<AvailableFolder>
    var selectedDestination: string

    /** Every field at its initial value. */
    predicate Initial()
      reads this
    {
      && password == "" && !showPassword && error == "" && !deleting
      && folderContents == None && !loadingContents && deleteMode == DeleteMode
      && availableFolders == [] && selectedDestination == ""
    }

    constructor (filePath: string, isDirectory: bool)
      ensures this.filePath == filePath && this.isDirectory == isDirectory
      ensures Initial()
    {
      this.filePath := filePath;
      this.isDirectory := isDirectory;
      password := "";
      showPassword := false;
      error := "";
      deleting := false;
      folderContents := None;
      loadingContents := false;
      deleteMode := DeleteMode;
      availableFolders := [];
      selectedDestination := "";
    }

    /** Whether `handleDelete` moves the folder's contents rather than
        deleting. */
    predicate Moving()
      reads this
    {
      deleteMode == MoveMode && isDirectory
    }

    /** The `/api/folders` answer arrived: offer every folder but the one
        being deleted. */
    method SetLoadedFolders(folders: seq<AvailableFolder>)
      modifies this
      ensures availableFolders == Destinations(folders, filePath)
      ensures forall f :: f in availableFolders <==> f in folders && f.path != filePath
      ensures password == old(password) && error == old(error) && deleting == old(deleting)
      ensures deleteMode == old(deleteMode) && selectedDestination == old(selectedDestination)
      ensures showPassword == old(showPassword) && folderContents == old(folderContents)
      ensures loadingContents == old(loadingContents)
    {
      availableFolders := Destinations(folders, filePath);
      DestinationsFilter(folders, filePath);
    }

    /** `handleDelete` up to the await. A blank password (white space only)
        is refused; so is a move with no destination chosen while some
        folder is on offer (with none on offer the empty destination stands
        for the root). Otherwise deletion starts, the error clears, and the
        request carries the password exactly as typed. */
    method HandleDelete() returns (request: Option<DeleteRequest>)
      modifies this
      ensures password == old(password) && selectedDestination == old(selectedDestination)
      ensures deleteMode == old(deleteMode) && availableFolders == old(availableFolders)
      ensures showPassword == old(showPassword) && folderContents == old(folderContents)
      ensures loadingContents == old(loadingContents)
      ensures Trim(password) == [] ==>
        request == None && error == PASSWORD_REQUIRED && deleting == old(deleting)
      ensures Trim(password) != [] && Moving() && selectedDestination == "" && |availableFolders| > 0 ==>
        request == None && error == DESTINATION_REQUIRED && deleting == old(deleting)
      ensures Trim(password) != [] && Moving() && !(selectedDestination == "" && |availableFolders| > 0) ==>
        request == Some(MoveContents(filePath, selectedDestination, password)) && deleting && error == ""
      ensures Trim(password) != [] && !Moving() ==>
        request == Some(ConfirmDelete(password)) && deleting && error == ""
    {
      var blank := Trim(password) == [];
      if blank {
        error := PASSWORD_REQUIRED;
        return None;
      }
      if deleteMode == MoveMode && isDirectory {
        if selectedDestination == "" && |availableFolders| > 0 {
          error := DESTINATION_REQUIRED;
          return None;
        }
      }
      deleting := true;
      error := "";
      if deleteMode == MoveMode && isDirectory {
        request := Some(MoveContents(filePath, selectedDestination, password));
      } else {
        request := Some(ConfirmDelete(password));
      }
    }

    /** `handleDelete` after the await: success closes the dialog, which
        resets every field; a failure shows its message and keeps the rest
        of the dialog as it was. Either way deletion is over. */
    method CompleteDelete(outcome: DeleteOutcome)
      modifies this
      ensures !deleting
      ensures outcome.Succeeded? ==> Initial()
      ensures !outcome.Succeeded? ==>
        && error == FailureMessage(outcome)
        && password == old(password) && selectedDestination == old(selectedDestination)
        && deleteMode == old(deleteMode) && availableFolders == old(availableFolders)
        && showPassword == old(showPassword) && folderContents == old(folderContents)
        && loadingContents == old(loadingContents)
    {
      if outcome.Succeeded? {
        HandleClose();
      } else {
        error := FailureMessage(outcome);
      }
      deleting := false;
    }

    /** `handleClose`: every field back to its initial value. */
    method HandleClose()
      modifies this
      ensures Initial()
    {
      password := "";
      error := "";
      deleting := false;
      showPassword := false;
      folderContents := None;
      loadingContents := false;
      deleteMode := DeleteMode;
      availableFolders := [];
      selectedDestination := "";
    }

    /** `handleKeyPress`: Enter runs `handleDelete` unless a deletion is
        under way; otherwise nothing changes and nothing is sent. */
    method HandleKeyPress(key: string) returns (request: Option<DeleteRequest>)
      modifies this
      ensures !(key == "Enter" && !old(deleting)) ==> request == None && unchanged(this)
      ensures key == "Enter" && !old(deleting) ==>
        && password == old(password) && selectedDestination == old(selectedDestination)
        && deleteMode == old(deleteMode) && availableFolders == old(availableFolders)
        && showPassword == old(showPassword) && folderContents == old(folderContents)
        && loadingContents == old(loadingContents)
      ensures key == "Enter" && !old(deleting) && Trim(old(password)) == [] ==>
        request == None && error == PASSWORD_REQUIRED && !deleting
      ensures key == "Enter" && !old(deleting) && Trim(old(password)) != [] && old(Moving())
              && old(selectedDestination) == "" && |old(availableFolders)| > 0 ==>
        request == None && error == DESTINATION_REQUIRED && !deleting
      ensures key == "Enter" && !old(deleting) && Trim(old(password)) != [] && old(Moving())
              && !(old(selectedDestination) == "" && |old(availableFolders)| > 0) ==>
        request == Some(MoveContents(filePath, old(selectedDestination), old(password))) && deleting && error == ""
      ensures key == "Enter" && !old(deleting) && Trim(old(password)) != [] && !old(Moving()) ==>
        request == Some(ConfirmDelete(old(password))) && deleting && error == ""
    {
      if key == "Enter" && !deleting {
        request := HandleDelete();
      } else {
        request := None;
      }
    }
  }
}
