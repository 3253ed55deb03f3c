# file-viewer, modelled in Dafny

This project models the logic of `docs`, a small personal documentation site.
The site has three parts:

- a Node/Express server (`file-viewer/server.js`), which lists a docs directory as a tree of `FileNode`s and serves single files from it;
- two export scripts (`generate-static-data.js` and its copy `file-viewer/public/files/generate-static-data.js`), which scan the same directory, write the tree to `files.json` and copy every file into the static site;
- a React viewer (`file-viewer/src`), which tags files by extension, opens the first HTML page it finds, and offers dialogs to upload, delete and create files and folders.

The host filesystem is replaced by values:

- the scanner reads a `Listing` tree in which a directory's listing may be `Unreadable`;
- the content endpoint reads a map from absolute paths to objects;
- the export scripts produce the ordered list of effects they would perform (`mkdir`, the `files.json` write, copy attempts with their outcome);
- network calls become a request returned by a method, plus an outcome passed to a second method.

Node's `path.join`, `path.normalize` and `path.dirname` are modelled as Node defines them for POSIX paths (module `PosixPath`). Segments are split on '/', then resolved with a stack in which '.' and empty segments vanish and '..' pops.

Module layout, one module per source file:

| module | models |
|---|---|
| `Strings` | the JavaScript string methods the code uses, ASCII only |
| `PosixPath` | `path.join`, `path.normalize`, `path.dirname` |
| `Types` | `types/index.ts` (`FileNode`, `FileType`), plus the abstract directory tree |
| `FileUtils` | `getFileType` |
| `Server` | `scanDirectory`, and the `/api/file-content` decision |
| `StaticExport` | `generate-static-data.js` |
| `PublicExport` | `file-viewer/public/files/generate-static-data.js` |
| `App` | `findHtml` and the selection it triggers |
| `CreateFolderDialog`, `FileUpload`, `DeleteDialog`, `FileTree` | the component handlers and the state fields they update |

The copy of the export script under `file-viewer/public/files` has the same `scanDirectory` and `copyFiles` as the root script, apart from the files directory. Module `PublicExport` therefore reuses `StaticExport.ScanDirectory` and `StaticExport.CopyFiles`, with the files directory as a parameter.

Two behaviours of the code worth knowing:

- The content endpoint answers a path that does not exist with 500 "Failed to read file", not with a not-found error. `fs.stat` throws, and the catch-all turns it into 500.
- An empty source directory never gets its own target created: for a directory node, `copyFiles` only creates the parent of the directory's target. So a directory `a` whose only child is an empty directory `b` is exported as an empty `files/a` (created as the parent of `a/b`), and `files/a/b` is not created. `StaticExport.CopyPlanDirectories` states exactly which directories are created.

## Model

| member | source | states |
|---|---|---|
| Server.Scan | file-viewer/server.js:16-53 | The tree `scanDirectory` returns: empty when `readdir` fails, otherwise the nodes of the kept entries. `Server.ScanDirectory`, `Server.ScanNoHidden`, `Server.ScanWellShaped`, `Server.ScanPathsFollowNames` and `Server.ScanKeepsListingOrder` state what it holds. |
| Server.ScanEntries | file-viewer/server.js:22-47 | The nodes the loop pushes for a list of entries, in listing order. `Server.ScanEntriesNoHidden`, `Server.ScanEntriesWellShaped`, `Server.ScanEntriesPathsFollowNames`, `Server.UnskippedMembers` and the two exclusion lemmas state what it holds. |
| Server.ScanDirectory | file-viewer/server.js:16-53 | The push loop returns the scan tree: the listing's entries minus the skipped ones, in listing order, each with path `path.join(relativePath, name)`; a directory carries its own scan as children, and an unreadable directory yields `[]` without failing. |
| Server.ScanEntriesNoHidden | file-viewer/server.js:24 | No node at any depth of the scanned tree has a name starting with '.'. |
| Server.ScanNoHidden | file-viewer/server.js:22-24 | The same, for the scan of a whole listing, readable or not. |
| Server.ScanWellShaped | file-viewer/server.js:32-46 | Every directory node at any depth carries a children list, possibly empty; no file node carries one. |
| Server.ScanEntriesWellShaped | file-viewer/server.js:32-46 | The same, for the nodes pushed by the loop. |
| Server.KeptNameIsPlain | file-viewer/server.js:24 | A name the loop keeps is a plain path segment: not empty, not '.' or '..', no '/'. |
| Server.ScanPathsFollowNames | file-viewer/server.js:29-30 | Each node's path is its parent's path with its own name appended as one more segment (just the name at top level), at every depth. |
| Server.ScanEntriesPathsFollowNames | file-viewer/server.js:29-30 | The same, for the nodes pushed by the loop. |
| Server.ScanKeepsListingOrder | file-viewer/server.js:20-47 | The names of the scanned siblings are exactly the listing's names minus the skipped ones, in listing order, unsorted. |
| Server.UnskippedMembers | file-viewer/server.js:24-27 | A name appears among the siblings iff some entry of the listing has it and it is not skipped at this level. |
| Server.TopLevelExclusions | file-viewer/server.js:27 | At the top level, `file-viewer` and `CLAUDE.md` never appear. |
| Server.NestedNamesKept | file-viewer/server.js:27 | Below the top level, an entry named `file-viewer` or `CLAUDE.md` is kept. |
| Server.FileContent | file-viewer/server.js:67-109 | The `/api/file-content` reply for a filepath, a docs root and a host filesystem. `Server.RequestCheckOrder` states the order of its checks, `Server.PassingRequestReply` the reply to a request that passes them, and the containment lemmas what passes the prefix test. |
| Server.Classify | file-viewer/server.js:89-103 | The branch a filepath takes on its extension. `Server.MarkupByLastExtension`, `Server.TextByLastExtension`, `Server.ViewableByLastExtension`, `Server.BucketsDisjoint` and `Server.ClassifyIgnoresCase` state how it depends on the last extension. |
| Server.RequestCheckOrder | file-viewer/server.js:70-107 | The checks run in a fixed order. A missing or empty filepath gives 400 and only then. 403 comes only from the prefix test. 500 "Failed to read file" comes exactly from a path absent from the host (not 404) or a text file whose read fails. A non-file gives 400 "Path is not a file". 415 comes only from an unsupported extension. A file is sent or read only when every check passes. |
| Server.PassingRequestReply | file-viewer/server.js:89-103 | A request that passes the parameter, prefix and file checks gets the file itself for markup and images/PDF, its text as JSON for a readable text file, 500 when that read fails, and 415 for any other extension. |
| Server.NoDotDotPassesContainment | file-viewer/server.js:75-80 | A filepath with no '..' segment always passes the containment check, for any plain absolute root. |
| Server.SiblingDirectoryPassesContainment | file-viewer/server.js:75-80 | The check is a raw prefix test. `../<root name><extra>/<file>` resolves to a sibling directory that is neither the root nor below it, yet passes. The file there is sent or read. |
| Server.DocsSiblingIsServed | file-viewer/server.js:75-96 | With the server's own root `/Users/weixu/docs`, the request `../docs2/notes.txt` returns the text of `/Users/weixu/docs2/notes.txt`. |
| Server.MarkupByLastExtension | file-viewer/server.js:89-91 | The raw-HTML branch is taken iff the path has a '.' and its lower-cased last extension is `html` or `htm`. |
| Server.TextByLastExtension | file-viewer/server.js:93-96 | The JSON-text branch is taken iff the path has a '.' and its lower-cased last extension is one of `txt md js ts json css`. |
| Server.ViewableByLastExtension | file-viewer/server.js:98-100 | The image/PDF branch is taken iff the path has a '.' and its lower-cased last extension is one of `jpg jpeg png gif webp svg pdf`. |
| Server.BucketByLastExtension | file-viewer/server.js:89-103 | The branch depends only on the lower-cased last extension. A path without '.' always gets 415. |
| Server.BucketsDisjoint | file-viewer/server.js:89-103 | The three extension tests are mutually exclusive, so each path takes exactly one branch whatever their order. |
| Server.ClassifyIgnoresCase | file-viewer/server.js:89-98 | Lower-casing the path never changes its branch. |
| Server.ClassifyBySuffix | file-viewer/server.js:89-103 | A path's branch is that of any suffix of it containing a '.'. |
| Server.ClassifyAgreesWithGetFileType | file-viewer/src/utils/fileUtils.ts:3-29 | For a name with a '.': 'text' holds iff the server returns JSON text; 'html', 'pdf' or 'image' holds iff it sends raw bytes; 'unknown' holds iff it returns 415. |
| Server.DotlessNameDisagrees | file-viewer/src/utils/fileUtils.ts:4 | Without a '.', the two disagree: a file named `pdf` is a 'pdf' to the viewer but gets 415 from the server. |
| StaticExport.DocsPath | generate-static-data.js:5 | The docs root: the working directory when `GITHUB_ACTIONS` is set and non-empty, else `/Users/weixu/docs`. `StaticExport.GenerateStaticData` uses it. |
| StaticExport.ScanDirectory | generate-static-data.js:9-45 | This script's scan, with its combined skip test, returns exactly the server's tree for the same directory. |
| StaticExport.CopyPlan | generate-static-data.js:48-68 | The effects of `copyFiles` on a list of items, in loop order. `StaticExport.CopyFiles` performs it, and `StaticExport.CopyPlanCopiesLeaves` and `StaticExport.CopyPlanDirectories` state which copies and directories it holds. |
| StaticExport.ItemPlan | generate-static-data.js:50-65 | The effects of one pass of the loop. `StaticExport.CopyItem` performs it, and `StaticExport.DirectoryCreatesOnlyParent` states what a directory node gets. |
| StaticExport.CopyFiles | generate-static-data.js:48-68 | The copy loop performs exactly the copy plan of its items: for each node, `mkdir` of the target's parent, then either the children's plan or one copy attempt; a failed copy does not stop the loop. |
| StaticExport.CopyItem | generate-static-data.js:50-65 | One pass of the loop performs exactly that item's plan: `mkdir` of its target's parent, then the children's plan for a directory with children, or else one copy attempt. |
| StaticExport.CopyPlanCopiesLeaves | generate-static-data.js:49-66 | The copy attempts are exactly one per leaf node (a node not descended into), in depth-first pre-order. Each goes from `path.join(docs, item.path)` to `path.join(filesDir, item.path)`. |
| StaticExport.CopyPlanDirectories | generate-static-data.js:53-59 | The only directories the copy loop creates are the parents of the targets of the visited nodes, in pre-order. |
| StaticExport.DirectoryCreatesOnlyParent | generate-static-data.js:53-56 | For a directory node, the directory created is the parent of its target, never the target itself, so an empty directory is not exported. |
| StaticExport.CopyOutcomesDoNotAlterPlan | generate-static-data.js:60-65 | Copy failures change nothing but their own outcome: the remaining actions are the same whichever copies fail. |
| StaticExport.ExportPlan | generate-static-data.js:70-92 | The effects of a whole run: two directories, the `files.json` write, then the copy plan of the written tree. `StaticExport.Export` performs it, and `StaticExport.TreeWrittenIsTreeCopied` and `StaticExport.ExportMirrorsPaths` state what it holds. |
| StaticExport.Export | generate-static-data.js:70-92 | The run is: create the output directory, create the files directory, write the scanned tree to `files.json`, then the copy plan of that same tree. |
| StaticExport.GenerateStaticData | generate-static-data.js:5-6 | The root script exports the working directory under `GITHUB_ACTIONS` and `/Users/weixu/docs` otherwise, into `./file-viewer/public/api` and `./file-viewer/public/files`. |
| StaticExport.TreeWrittenIsTreeCopied | generate-static-data.js:77-86 | The tree written to `files.json` is the scanned tree. The files copied are exactly the leaves of that tree. |
| StaticExport.MirrorPath | generate-static-data.js:50-51 | For a plain relative path `p`, the source is `p` under the docs root and the target is the files directory followed by `/p`. |
| StaticExport.ExportMirrorsPaths | generate-static-data.js:50-51 | Every leaf of the written tree at path `p` is copied from `p` under the docs root to `p` under the files directory, in order. |
| StaticExport.RootScriptMirrorsPaths | generate-static-data.js:50-51 | For the root script the target of leaf `p` is `file-viewer/public/files/p`. |
| PublicExport.OutputPath | file-viewer/public/files/generate-static-data.js:7 | `./public/api` when the working directory ends in `file-viewer`, otherwise the root script's output directory. `PublicExport.SameAsRootScriptOutsideViewer` uses it. |
| PublicExport.FilesDir | file-viewer/public/files/generate-static-data.js:74 | `./public/files` when the working directory ends in `file-viewer`, otherwise the root script's files directory. The same test is at line 50. `PublicExport.PublicScriptMirrorsPaths` uses it. |
| PublicExport.GenerateStaticData | file-viewer/public/files/generate-static-data.js:72-96 | The copy script runs the same sequence with output and files directories chosen from the working directory. |
| PublicExport.SameAsRootScriptOutsideViewer | file-viewer/public/files/generate-static-data.js:7 | Run anywhere but inside `file-viewer`, it produces exactly the root script's plan. |
| PublicExport.PublicScriptMirrorsPaths | file-viewer/public/files/generate-static-data.js:49-70 | Every leaf `p` is copied to `public/files/p` when the working directory ends with `file-viewer`, otherwise to `file-viewer/public/files/p`. |
| PosixPath.Normalize | file-viewer/server.js:75 | `path.normalize`: empty and "." segments vanish, and ".." cancels the segment before it. `PosixPath.JoinRelative`, `PosixPath.JoinWithoutDotDotStaysUnder` and `PosixPath.JoinIntoSibling` state its results. |
| PosixPath.Join | file-viewer/server.js:30 | `path.join`: the non-empty arguments joined with '/', then normalised. The three join lemmas below state its results. |
| PosixPath.Dirname | generate-static-data.js:55 | `path.dirname`: the path up to its last separator. `PosixPath.DirnameRelPath` states its result for plain paths. |
| PosixPath.JoinRelative | file-viewer/server.js:30 | Joining a plain relative directory path and a plain name appends the name as one more segment. |
| PosixPath.JoinWithoutDotDotStaysUnder | file-viewer/server.js:75-78 | `path.join` of a plain absolute root and a path with no '..' segment starts with the root. |
| PosixPath.JoinIntoSibling | file-viewer/server.js:75 | `path.join(root, "../sib/rest")` is the sibling directory's `rest`. |
| PosixPath.DirnameRelPath | generate-static-data.js:55 | `path.dirname` of a plain path of two or more segments drops the last segment. |
| Strings.Lower | file-viewer/src/utils/fileUtils.ts:4 | `toLowerCase` on ASCII. `Strings.LowerAppend`, `Strings.LowerKeepsDots` and `Strings.LowerIdempotent` state its properties. |
| Strings.LowerAppend | file-viewer/src/utils/fileUtils.ts:4 | Lower-casing works character by character: it distributes over concatenation. |
| Strings.LowerKeepsDots | file-viewer/src/utils/fileUtils.ts:4 | A lower-cased name has a '.' iff the name has one, so the split at '.' is unaffected. |
| Strings.LowerIdempotent | file-viewer/server.js:89 | Lower-casing an already lower-cased name changes nothing, which is why the `/i` regexes and the lower-cased `endsWith` tests agree on `Lower(p)` and `p`. |
| Strings.AfterLastDot | file-viewer/src/utils/fileUtils.ts:4 | `split('.').pop()`. `Strings.AfterLastDotSpec` and `Strings.EndsWithDotExt` state its result. |
| Strings.AfterLastDotSpec | file-viewer/src/utils/fileUtils.ts:4 | `split('.').pop()` gives a text with no '.' that ends the name. When the name has a '.', a '.' comes right before that text; otherwise it is the whole name. |
| Strings.EndsWithDotExt | file-viewer/src/utils/fileUtils.ts:4 | For a dot-free extension, the name ends with '.' and that extension iff the name has a '.' and `split('.').pop()` gives that extension. |
| Strings.Trim | file-viewer/src/components/CreateFolderDialog.tsx:37 | `trim()`. `Strings.TrimStartSpec` and `Strings.TrimEndSpec` state that exactly the leading and trailing white space is removed; `Strings.TrimEmpty` and `Strings.TrimEnds` state the consequences the dialog relies on. |
| Strings.TrimStartSpec | file-viewer/src/components/CreateFolderDialog.tsx:37 | The leading cut is a suffix of the name, every character cut off is white space, and what remains does not start with white space. |
| Strings.TrimEndSpec | file-viewer/src/components/CreateFolderDialog.tsx:37 | The trailing cut is a prefix of the string, every character cut off is white space, and what remains does not end with white space. |
| Strings.TrimEmpty | file-viewer/src/components/CreateFolderDialog.tsx:37-40 | `trim()` gives the empty string iff every character is white space, which is when the dialog reports a missing name. |
| Strings.TrimEnds | file-viewer/src/components/CreateFolderDialog.tsx:37 | A trimmed name is a window of the typed one, every character cut off at either end is white space, and when non-empty it neither starts nor ends with white space. |
| FileUtils.GetFileType | file-viewer/src/utils/fileUtils.ts:3-29 | `getFileType`: switch on the lower-cased text after the last '.'. `FileUtils.GetFileTypeByEnding` and the lemmas below state its tags. |
| FileUtils.MatchesExtension | file-viewer/server.js:93 | A case-insensitive regex matching a '.' and one of the listed extensions at the end of the name. `FileUtils.MatchesExtensionIffLastExtension` states what it accepts. |
| FileUtils.GetFileTypeByEnding | file-viewer/src/utils/fileUtils.ts:3-29 | For a name with a '.': 'html' iff it ends, case-insensitively, with `.html`/`.htm`; 'pdf' iff `.pdf`; 'image' iff one of the six image endings; 'text' iff one of the six text endings; 'unknown' iff none. |
| FileUtils.MatchesExtensionIffLastExtension | file-viewer/src/utils/fileUtils.ts:4 | A case-insensitive "ends with '.' and one of these extensions" test holds iff the name has a '.' and its lower-cased last extension is in the list. |
| FileUtils.NameEndingInDotIsUnknown | file-viewer/src/utils/fileUtils.ts:26-27 | A name ending in '.' has the empty extension and is 'unknown'. |
| FileUtils.DotlessNameTaggedByWholeName | file-viewer/src/utils/fileUtils.ts:4 | For any name without '.', the extension taken is the whole lower-cased name, so the name is a 'pdf' exactly when it lower-cases to `pdf`. |
| FileUtils.DotlessPdf | file-viewer/src/utils/fileUtils.ts:4-13 | An instance: a file called `PDF` is a 'pdf'. |
| FileUtils.GetFileTypeIgnoresCase | file-viewer/src/utils/fileUtils.ts:4 | Any two names that lower-case alike get the same tag. |
| FileUtils.UpperCaseExtension | file-viewer/src/utils/fileUtils.ts:4-20 | An instance: `Photo.JPEG` is an 'image', as `photo.jpeg` is. |
| FileUtils.OnlyLastExtensionCounts | file-viewer/src/utils/fileUtils.ts:4 | Only the last extension counts: `page.html.txt` is 'text'. |
| FileUtils.ExtensionListsDisjoint | file-viewer/src/utils/fileUtils.ts:7-25 | No extension is listed under two tags. |
| App.FindHtml | file-viewer/src/App.tsx:181-191 | `findHtml`, a depth-first search. `App.FindHtmlIsFirstHtmlLeaf` and `App.FoundHtmlIsAPage` state what it finds. |
| App.FindHtmlIsFirstHtmlLeaf | file-viewer/src/App.tsx:181-191 | `findHtml` returns the first node, in depth-first pre-order among the nodes it does not descend into, whose lower-cased name ends with `.html`. A subtree without a hit does not stop the search. |
| App.FirstHtmlSpec | file-viewer/src/App.tsx:186-190 | The reference search finds a node with an HTML name that no earlier node has, and finds nothing iff no node has one. |
| App.LeavesDoNotDescend | file-viewer/src/App.tsx:183 | The nodes the search can return are never directories with a children list. |
| App.FoundHtmlIsAPage | file-viewer/src/App.tsx:183-190 | The result is a leaf of the tree with an HTML name, never a directory with children even when named `*.html`, and never a `.htm` page. It is null iff no leaf has an HTML name. |
| App.Selection.SelectFirstHtml | file-viewer/src/App.tsx:193-197 | On a hit, the selected path becomes the page's path and the type 'html'. Otherwise the selection is unchanged. |
| CreateFolderDialog.Validate | file-viewer/src/components/CreateFolderDialog.tsx:36-53 | The checks of `handleCreate`, in order, on the trimmed name. `CreateFolderDialog.ValidateOutcomes` and `CreateFolderDialog.AcceptedNameIsSafe` state their outcomes. |
| CreateFolderDialog.ValidateOutcomes | file-viewer/src/components/CreateFolderDialog.tsx:37-53 | On the trimmed name: all white space gives "Folder name is required". A character outside letters, digits, `-`, `_`, white space and '.' gives the charset error. A leading '.' or two adjacent dots give "Invalid folder name". Anything else is accepted as the trimmed name. |
| CreateFolderDialog.SeparatorTestsUnreachable | file-viewer/src/components/CreateFolderDialog.tsx:45-50 | A name passing the character-class test contains neither '/' nor '\', so those two tests never fire. |
| CreateFolderDialog.AcceptedNameIsSafe | file-viewer/src/components/CreateFolderDialog.tsx:36-53 | An accepted name is non-empty, has no white space at either end, does not start with '.', and contains no `..`, '/' or '\'. |
| CreateFolderDialog.DialogState.HandleCreate | file-viewer/src/components/CreateFolderDialog.tsx:36-59 | A rejected name only sets the error. An accepted one sets `creating`, clears the error, and is passed trimmed to `onConfirm`. The typed name is never changed. |
| CreateFolderDialog.DialogState.CompleteCreate | file-viewer/src/components/CreateFolderDialog.tsx:58-65 | Success resets the dialog. A failure shows the thrown message, or "Failed to create folder", and keeps the name. `creating` is false either way. |
| CreateFolderDialog.DialogState.HandleClose | file-viewer/src/components/CreateFolderDialog.tsx:68-73 | Name, error and `creating` return to their initial values. |
| CreateFolderDialog.DialogState.HandleKeyPress | file-viewer/src/components/CreateFolderDialog.tsx:75-79 | Enter runs `handleCreate` unless a creation is under way. Otherwise nothing changes. |
| FileUpload.AllowedType | file-viewer/src/components/FileUpload.tsx:41-42 | The upload whitelist regex. `FileUpload.AllowedTypeAgreesWithGetFileType` states what it admits. |
| FileUpload.CheckFile | file-viewer/src/components/FileUpload.tsx:41-51 | The type check, then the size check. `FileUpload.CheckFileOutcomes` states their outcomes. |
| FileUpload.AllowedTypeAgreesWithGetFileType | file-viewer/src/components/FileUpload.tsx:41 | The upload whitelist admits exactly the names with a '.' that `getFileType` tags 'html', 'pdf' or 'image'. |
| FileUpload.CheckFileOutcomes | file-viewer/src/components/FileUpload.tsx:41-51 | A file is accepted iff its type is allowed and its size is at most 52,428,800 bytes. A disallowed type reports the type error whatever the size. |
| FileUpload.FailureMessage | file-viewer/src/components/FileUpload.tsx:86-106 | A failed upload always shows a non-empty message: the `error` field falls back to "Upload failed", and so does a thrown non-`Error`. The message is empty only when an `Error` with an empty message was thrown. |
| FileUpload.UploadForm.HandleFileSelect | file-viewer/src/components/FileUpload.tsx:37-57 | No file: nothing changes. A refused file sets only the error and keeps the previous selection. An accepted file is selected, and the error and success messages clear. |
| FileUpload.UploadForm.HandleUpload | file-viewer/src/components/FileUpload.tsx:59-77 | With nothing selected, nothing happens. Off the development host (`localhost`/`127.0.0.1`), only the error is set. Otherwise the upload starts with the selected file, and `targetFolder` is sent only when it is given and non-empty. |
| FileUpload.UploadForm.CompleteUpload | file-viewer/src/components/FileUpload.tsx:86-109 | Success sets the success message, clears the selection and notifies the parent. A failure sets the error and keeps the selection. `uploading` is false either way. |
| DeleteDialog.Destinations | file-viewer/src/components/DeleteDialog.tsx:102 | The folders offered as move destinations. `DeleteDialog.DestinationsKeepOrder` and `DeleteDialog.DestinationsFilter` state what it keeps. |
| DeleteDialog.DestinationsInOrder | file-viewer/src/components/DeleteDialog.tsx:102 | `filter` as it visits the folders, front to back: the reference for `DeleteDialog.DestinationsKeepOrder`. |
| DeleteDialog.DestinationsKeepOrder | file-viewer/src/components/DeleteDialog.tsx:102 | The destination list is the front-to-back filter of the loaded folders: the kept folders stay in their order and with their multiplicity. |
| DeleteDialog.DestinationsFilter | file-viewer/src/components/DeleteDialog.tsx:102 | The destination list keeps exactly the folders whose path differs from the one being deleted. Its subfolders stay. |
| DeleteDialog.FailureMessage | file-viewer/src/components/DeleteDialog.tsx:154-172 | A failed delete or move always shows a non-empty message: the `error` field falls back to "Move failed", and a thrown non-`Error` to "Operation failed". The message is empty only when an `Error` with an empty message was thrown. |
| DeleteDialog.DialogState.SetLoadedFolders | file-viewer/src/components/DeleteDialog.tsx:99-103 | The offered destinations are the loaded folders minus the one being deleted. No other field changes. |
| DeleteDialog.DialogState.HandleDelete | file-viewer/src/components/DeleteDialog.tsx:119-168 | A white-space-only password gives "Password is required" and sends nothing. A directory move with no destination, while some folder is on offer, gives "Please select a destination folder". A move with none on offer goes to the root. The move request is sent only in move mode for a directory; otherwise `onConfirm` gets the password. The password is sent untrimmed. |
| DeleteDialog.DialogState.CompleteDelete | file-viewer/src/components/DeleteDialog.tsx:154-175 | Success closes and resets the dialog. A failure sets the error and keeps everything else. `deleting` is false either way. |
| DeleteDialog.DialogState.HandleClose | file-viewer/src/components/DeleteDialog.tsx:178-189 | Every field returns to its initial value: mode 'delete', empty password and destination. |
| DeleteDialog.DialogState.HandleKeyPress | file-viewer/src/components/DeleteDialog.tsx:191-195 | Enter, while not already deleting, has exactly `handleDelete`'s outcomes: the password refusal, the destination refusal, the move request or the password for `onConfirm`. Any other key, or Enter while deleting, changes nothing and sends nothing. |
| FileTree.TreeState.HandleFileSelect | file-viewer/src/components/FileTree.tsx:81-93 | A directory becomes the selected folder, clears the file and notifies nobody. A file becomes the selected file, clears the folder, and the parent gets its path and `getFileType` of its name. At most one selection is non-empty afterwards. |
| FileTree.TreeState.HandleDeleteClick | file-viewer/src/components/FileTree.tsx:104-107 | The delete dialog is opened for the clicked node. The selection is unchanged. |
| FileTree.TreeState.HandleDeleteConfirm | file-viewer/src/components/FileTree.tsx:109-125 | With no node chosen nothing is sent. Otherwise the node's path and the password are sent. |
| FileTree.TreeState.CompleteDeleteConfirm | file-viewer/src/components/FileTree.tsx:127-139 | A non-ok response throws the server's error, or "Delete failed", before anything changes. After success, when the deleted node was the selected file, the selection clears and the parent is told `('', 'text')`; otherwise nothing changes. |
| FileTree.TreeState.CreateFolder | file-viewer/src/components/FileTree.tsx:160-163 | A new folder's parent is the selected folder, or the root ('') when none is selected. |

## Left out

- Real filesystem and network effects. These are `readdir`, `stat`, `readFile`, `mkdir`, `copyFile`, `writeFile`, `res.sendFile`, every `fetch`, and the fetch wrappers `buildFileTree` and `readFileContent` in `fileUtils.ts`. They are replaced by the abstract tree, the host map, and the action and request values; each copy's success is a parameter.
- The server handlers the viewer calls that are not in `server.js`: upload, delete, create-folder, folder-contents, move-folder-contents and folders. Their behaviour is not part of this model; only the requests the components send are.
- Express wiring, CORS and the `/api/files` route wrapper, which only call `scanDirectory`.
- The `files.json` byte layout (`JSON.stringify`); only the tree value written is modelled.
- The export scripts' outer `try`/`catch`. A failing `mkdir` or `writeFile` would end the run early. The model assumes these succeed; only `copyFile` failures are modelled.
- A `filepath` query parameter given several times (an array in Express); the model takes one string or none.
- `formatFileSize`, which uses floating-point `Math.log`, `pow` and `toFixed`.
- Rendering, theme, layout, icons (`getFileIcon`), `FileViewer.tsx`, `fileScanner.ts` (a fixed mock tree) and the `setTimeout` delays. The 1.5 s delay before `onUploadSuccess` is modelled only as the flag saying the parent will be told.
- The parents' callbacks `onClose` and `onMoveSuccess`, and `loadFileTree`'s reload after a delete; they call code outside these components.
- The delete dialog's loading effect apart from the filter at line 102. Its folder-contents counts, loading flags and the reset on reopen are not modelled.
- React's batching of state updates: each handler's updates are applied in order.
- Unicode: `toLowerCase`, `trim` and the regex class `\s` are modelled on ASCII only.
- Windows path separators: paths are POSIX.
- `copyFiles`'s unused `basePath` argument.
- The backend-availability test (`FileTree.tsx:47`, `FileUpload.tsx:35`) is the predicate `FileUpload.IsBackendAvailable`, which `HandleUpload` takes the hostname for. It has no separate contract, since it is only a definition.
