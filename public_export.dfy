/** file-viewer/public/files/generate-static-data.js: the copy of the export
    script kept under the viewer's public files. Its scan and copy loops are
    those of generate-static-data.js; it differs only in choosing the output
    and files directories from the working directory, so that it also runs
    from inside file-viewer/. */
module PublicExport {
  import opened Wrappers
  import opened Strings
  import opened PosixPath
  import opened Types
  import Server
  import opened StaticExport

  const VIEWER_OUTPUT_PATH: string := "./public/api"
  const VIEWER_FILES_DIR: string := "./public/files"

  /** `OUTPUT_PATH`: relative to file-viewer/ when the script runs there. */
  function OutputPath(cwd: string): string {
    if EndsWith(cwd, "file-viewer") then VIEWER_OUTPUT_PATH else StaticExport.OUTPUT_PATH
  }

  /** `filesDir`, computed the same way in `copyFiles` and in
      `generateStaticData`. */
  function FilesDir(cwd: string): string {
    if EndsWith(cwd, "file-viewer") then VIEWER_FILES_DIR else StaticExport.FILES_DIR
  }

  /** `generateStaticData()` of this script, run from `cwd`. */
  method GenerateStaticData(listing: Listing, githubActions: Option<string>, cwd: string, copySucceeds: string -> bool)
    returns (actions: seq<Action>)
    ensures actions == ExportPlan(listing, DocsPath(githubActions, cwd), OutputPath(cwd), FilesDir(cwd), copySucceeds)
  {
    var filesDir := FilesDir(cwd);
    actions := Export(listing, DocsPath(githubActions, cwd), OutputPath(cwd), filesDir, copySucceeds);
  }

  /** Run from anywhere but file-viewer/, this script does exactly what the
      root-level script does. */
  lemma SameAsRootScriptOutsideViewer(listing: Listing, githubActions: Option<string>, cwd: string, copySucceeds: string -> bool)
    requires !EndsWith(cwd, "file-viewer")
    ensures ExportPlan(listing, DocsPath(githubActions, cwd), OutputPath(cwd), FilesDir(cwd), copySucceeds)
         == ExportPlan(listing, DocsPath(githubActions, cwd), StaticExport.OUTPUT_PATH, StaticExport.FILES_DIR, copySucceeds)
  {
  }

  const VIEWER_FILES_SEGMENTS: seq<string> := ["public", "files"]

  lemma ViewerFilesDirSegments(d: string)
    requires d == VIEWER_FILES_DIR
    ensures FilesDirResolvesTo(d, VIEWER_FILES_SEGMENTS)
  {
    assert JoinSegments(VIEWER_FILES_SEGMENTS) == "public/files";
    assert d == "." + "/" + "public/files";
    DotSlashResolves(d, VIEWER_FILES_SEGMENTS);
  }

  lemma ViewerPrefixSpelled(y: string)
    requires y == "public/files/"
    ensures y == RelPath(VIEWER_FILES_SEGMENTS) + "/"
  {
    assert JoinSegments(VIEWER_FILES_SEGMENTS) == "public/files";
  }

  /** Every file of the scanned tree at path `p` is copied from the docs
      root's `p` to public/files/`p` when the script runs inside
      file-viewer/, and to file-viewer/public/files/`p` otherwise. */
  lemma PublicScriptMirrorsPaths(listing: Listing, docsSegs: seq<string>, cwd: string, filesDir: string,
                                 copySucceeds: string -> bool)
    requires AllPlain(docsSegs) && filesDir == FilesDir(cwd)
    ensures var leaves := Leaves(Server.Scan(listing, ""));
      var copies := Copies(ExportPlan(listing, AbsPath(docsSegs), OutputPath(cwd), filesDir, copySucceeds));
      var prefix := if EndsWith(cwd, "file-viewer") then "public/files/" else "file-viewer/public/files/";
      && |copies| == |leaves|
      && forall i :: 0 <= i < |leaves| ==>
           copies[i] == (AbsPath(docsSegs + Split(leaves[i].path)), prefix + leaves[i].path)
  {
    if EndsWith(cwd, "file-viewer") {
      ViewerFilesDirSegments(filesDir);
      ExportMirrorsPaths(listing, docsSegs, OutputPath(cwd), filesDir, VIEWER_FILES_SEGMENTS, copySucceeds);
      ViewerPrefixSpelled("public/files/");
    } else {
      RootScriptMirrorsPaths(listing, docsSegs, OutputPath(cwd), filesDir, copySucceeds);
    }
  }
}
