/** file-viewer/src/components/FileTree.tsx: the sidebar tree, which keeps
    the current file and folder selection and issues the delete and
    create-folder requests. */
module FileTree {
  import opened Wrappers
  import opened Types
  import opened FileUtils

  /** A call of the parent's `onFileSelect(filePath, fileType)`. */
  datatype Notification = FileSelected(filePath: string, fileType: FileType)

  /** The body of a `/api/delete` request. */
  datatype DeleteRequest = DeleteRequest(filepath: string, password: string)

  /** The body of a `/api/create-folder` request. */
  datatype CreateFolderRequest = CreateFolderRequest(folderPath: string, parentFolder: string)

  /** What the awaited `/api/delete` call produced: an ok response, or a
      non-ok one whose body has the `error` field given ("" when absent). */
  datatype DeleteResponse = DeleteOk | DeleteNotOk(errorField: string)

  const DELETE_FAILED: string := "Delete failed"

  /** The tree's selection fields and the node its delete dialog is for. */
  class TreeState {
    var selectedFile: string
    var selectedFolder: string
    var deleteTarget: Option<FileNode>

    /** At most one of the two selections is set. */
    predicate SingleSelection()
      reads this
    {
      selectedFile == "" || selectedFolder == ""
    }

    constructor ()
      ensures selectedFile == "" && selectedFolder == "" && deleteTarget == None
      ensures SingleSelection()
    {
      selectedFile := "";
      selectedFolder := "";
      deleteTarget := None;
    }

    /** `handleFileSelect`: a directory becomes the selected folder and
        clears the file, telling the parent nothing; a file becomes the
        selected file, clears the folder, and the parent is told its path
        and `getFileType` of its name. */
    method HandleFileSelect(filePath: string, fileName: string, isDirectory: bool)
      returns (notification: Option<Notification>)
      modifies this
      ensures deleteTarget == old(deleteTarget)
      ensures SingleSelection()
      ensures isDirectory ==> selectedFolder == filePath && selectedFile == "" && notification == None
      ensures !isDirectory ==>
        && selectedFile == filePath && selectedFolder == ""
        && notification == Some(FileSelected(filePath, GetFileType(fileName)))
    {
      if isDirectory {
        selectedFolder := filePath;
        selectedFile := "";
        notification := None;
      } else {
        selectedFile := filePath;
        selectedFolder := "";
        var fileType := GetFileType(fileName);
        notification := Some(FileSelected(filePath, fileType));
      }
    }

    /** `handleDeleteClick`: the dialog opens for `file`. */
    method HandleDeleteClick(file: FileNode)
      modifies this
      ensures deleteTarget == Some(file)
      ensures selectedFile == old(selectedFile) && selectedFolder == old(selectedFolder)
    {
      deleteTarget := Some(file);
    }

    /** `handleDeleteConfirm` up to the await: with no node chosen nothing
        is sent, otherwise the node's path and the password are. */
    method HandleDeleteConfirm(password: string) returns (request: Option<DeleteRequest>)
      ensures deleteTarget.None? ==> request == None
      ensures deleteTarget.Some? ==> request == Some(DeleteRequest(deleteTarget.value.path, password))
    {
      if deleteTarget.None? {
        return None;
      }
      request := Some(DeleteRequest(deleteTarget.value.path, password));
    }

    /** `handleDeleteConfirm` after the await. A non-ok response throws
        before anything changes. After an ok one, when the deleted node was
        the selected file, the selection clears and the parent is told to
        show nothing; otherwise nothing changes. */
    method CompleteDeleteConfirm(response: DeleteResponse)
      returns (thrown: Option<string>, notification: Option<Notification>)
      requires deleteTarget.Some?
      modifies this
      ensures selectedFolder == old(selectedFolder) && deleteTarget == old(deleteTarget)
      ensures response.DeleteNotOk? ==>
        && thrown == Some(if response.errorField != "" then response.errorField else DELETE_FAILED)
        && notification == None && selectedFile == old(selectedFile)
      ensures response.DeleteOk? && old(selectedFile) == deleteTarget.value.path ==>
        thrown == None && selectedFile == "" && notification == Some(FileSelected("", Text))
      ensures response.DeleteOk? && old(selectedFile) != deleteTarget.value.path ==>
        thrown == None && selectedFile == old(selectedFile) && notification == None
      ensures old(SingleSelection()) ==> SingleSelection()
    {
      notification := None;
      if response.DeleteNotOk? {
        thrown := Some(if response.errorField != "" then response.errorField else DELETE_FAILED);
        return;
      }
      thrown := None;
      if selectedFile == deleteTarget.value.path {
        selectedFile := "";
        notification := Some(FileSelected("", Text));
      }
    }

    /** The body `handleCreateFolder` sends: `selectedFolder || ''` is the
        selected folder itself, so a new folder goes into the selected
        folder, or into the root ('') when none is selected. */
    function CreateFolder(folderName: string): (r: CreateFolderRequest)
      reads this
      ensures r.folderPath == folderName
      ensures r.parentFolder == selectedFolder
    {
      CreateFolderRequest(folderName, if selectedFolder != "" then selectedFolder else "")
    }
  }
}
