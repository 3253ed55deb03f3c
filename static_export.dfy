/** generate-static-data.js: the build step that scans the docs root, writes
    the tree to `files.json` and copies every listed file under the public
    files directory. The filesystem effects are recorded as a list of
    actions in the order the script performs them; whether one `copyFile`
    succeeds is an input (`copySucceeds`, keyed by source path). */
module StaticExport {
  import opened Wrappers
  import opened Strings
  import opened PosixPath
  import opened Types
  import Server

  const FIXED_DOCS_PATH: string := "/Users/weixu/docs"
  const OUTPUT_PATH: string := "./file-viewer/public/api"
  const FILES_DIR: string := "./file-viewer/public/files"

  /** `process.env.GITHUB_ACTIONS ? process.cwd() : '/Users/weixu/docs'`; an
      unset or empty variable is falsy. */
  function DocsPath(githubActions: Option<string>, cwd: string): string {
    if githubActions.Some? && githubActions.value != "" then cwd else FIXED_DOCS_PATH
  }

  /** One filesystem effect: `mkdir -p`, the `files.json` write (the tree
      value, not its JSON layout), or a copy attempt with its outcome. */
  datatype Action =
    | MakeDirectory(path: string)
    | WriteTree(path: string, tree: seq<FileNode>)
    | CopyFile(source: string, target: string, copied: bool)

  /** This script's `scanDirectory`: the same loop as the server's with its
      skip tests written as one condition. */
  method ScanDirectory(listing: Listing, relativePath: string) returns (items: seq<FileNode>)
    ensures items == Server.Scan(listing, relativePath)
    decreases listing
  {
    items := [];
    if listing.Unreadable? {
      return;
    }
    var entries := listing.entries;
    var i := 0;
    while i < |entries|
      invariant 0 <= i <= |entries|
      invariant items == Server.ScanEntries(entries[..i], relativePath)
    {
      var entry := entries[i];
      assert entries[..i + 1][..i] == entries[..i];
      i := i + 1;
      if StartsWith(entry.name, ".")
         || (entry.name == "file-viewer" && relativePath == "")
         || (entry.name == "CLAUDE.md" && relativePath == "")
      {
        continue;
      }
      var relativeFullPath := Join(relativePath, entry.name);
      if entry.Dir? {
        var children := ScanDirectory(entry.listing, relativeFullPath);
        items := items + [FileNode(entry.name, relativeFullPath, true, Present(children))];
      } else {
        items := items + [FileNode(entry.name, relativeFullPath, false, Absent)];
      }
    }
    assert entries[..i] == entries;
  }

  // ---------------------------------------------------------------------
  // The copy plan

  /** The effects of `copyFiles(items)` with docs root `docsPath` and files
      directory `filesDir`. */
  function CopyPlan(items: seq<FileNode>, docsPath: string, filesDir: string, copySucceeds: string -> bool): seq<Action>
    decreases items
  {
    if items == [] then []
    else CopyPlan(items[..|items| - 1], docsPath, filesDir, copySucceeds)
         + ItemPlan(items[|items| - 1], docsPath, filesDir, copySucceeds)
  }

  /** The plan of one more item extends the plan of those before it. */
  lemma CopyPlanStep(items: seq<FileNode>, i: nat, docsPath: string, filesDir: string, copySucceeds: string -> bool)
    requires i < |items|
    ensures CopyPlan(items[..i + 1], docsPath, filesDir, copySucceeds)
         == CopyPlan(items[..i], docsPath, filesDir, copySucceeds) + ItemPlan(items[i], docsPath, filesDir, copySucceeds)
  {
    assert items[..i + 1][..i] == items[..i];
  }

  /** One iteration: a node the walk descends into only gets the parent of
      its target created before the recursion; any other node gets the
      parent of its target created and then one copy attempt. */
  function ItemPlan(item: FileNode, docsPath: string, filesDir: string, copySucceeds: string -> bool): seq<Action>
    decreases item
  {
    var source := Join(docsPath, item.path);
    var target := Join(filesDir, item.path);
    if Descends(item) then [MakeDirectory(Dirname(target))] + CopyPlan(item.children.nodes, docsPath, filesDir, copySucceeds)
    else [MakeDirectory(Dirname(target)), CopyFile(source, target, copySucceeds(source))]
  }

  /** `copyFiles(items)`: a loop over the items; a failing copy is logged
      and the loop goes on. */
  method CopyFiles(items: seq<FileNode>, docsPath: string, filesDir: string, copySucceeds: string -> bool)
    returns (actions: seq<Action>)
    ensures actions == CopyPlan(items, docsPath, filesDir, copySucceeds)
    decreases items
  {
    actions := [];
    var i := 0;
    while i < |items|
      invariant 0 <= i <= |items|
      invariant actions == CopyPlan(items[..i], docsPath, filesDir, copySucceeds)
    {
      var step := CopyItem(items[i], docsPath, filesDir, copySucceeds);
      CopyPlanStep(items, i, docsPath, filesDir, copySucceeds);
      actions := actions + step;
      i := i + 1;
    }
    assert items[..i] == items;
  }

  /** The body of the loop in `copyFiles` for one item: create the parent
      of its target, then either recurse into its children or copy it. */
  method CopyItem(item: FileNode, docsPath: string, filesDir: string, copySucceeds: string -> bool)
    returns (step: seq<Action>)
    ensures step == ItemPlan(item, docsPath, filesDir, copySucceeds)
    decreases item
  {
    var sourcePath := Join(docsPath, item.path);
    var targetPath := Join(filesDir, item.path);
    step := [MakeDirectory(Dirname(targetPath))];
    if item.isDirectory && item.children.Present? {
      var nested := CopyFiles(item.children.nodes, docsPath, filesDir, copySucceeds);
      step := step + nested;
    } else {
      var copied := copySucceeds(sourcePath);
      step := step + [CopyFile(sourcePath, targetPath, copied)];
    }
  }

  /** The whole run: create the output and files directories, scan the docs
      root, write the tree, then copy from that same tree. */
  function ExportPlan(listing: Listing, docsPath: string, outputPath: string, filesDir: string, copySucceeds: string -> bool)
    : seq<Action>
  {
    var tree := Server.Scan(listing, "");
    [MakeDirectory(outputPath), MakeDirectory(filesDir), WriteTree(Join(outputPath, "files.json"), tree)]
    + CopyPlan(tree, docsPath, filesDir, copySucceeds)
  }

  /** The body of `generateStaticData`, for given output and files
      directories. */
  method Export(listing: Listing, docsPath: string, outputPath: string, filesDir: string, copySucceeds: string -> bool)
    returns (actions: seq<Action>)
    ensures actions == ExportPlan(listing, docsPath, outputPath, filesDir, copySucceeds)
  {
    actions := [MakeDirectory(outputPath), MakeDirectory(filesDir)];
    var fileTree := ScanDirectory(listing, "");
    actions := actions + [WriteTree(Join(outputPath, "files.json"), fileTree)];
    var copies := CopyFiles(fileTree, docsPath, filesDir, copySucceeds);
    actions := actions + copies;
  }

  /** `generateStaticData()` of this script, where `listing` is what the docs
      root holds. */
  method GenerateStaticData(listing: Listing, githubActions: Option<string>, cwd: string, copySucceeds: string -> bool)
    returns (actions: seq<Action>)
    ensures actions == ExportPlan(listing, DocsPath(githubActions, cwd), OUTPUT_PATH, FILES_DIR, copySucceeds)
  {
    actions := Export(listing, DocsPath(githubActions, cwd), OUTPUT_PATH, FILES_DIR, copySucceeds);
  }

  // ---------------------------------------------------------------------
  // Reading a plan

  /** The (source, target) pairs of the copy attempts, in order. */
  function Copies(actions: seq<Action>): seq<(string, string)> {
    if actions == [] then []
    else (if actions[0].CopyFile? then [(actions[0].source, actions[0].target)] else []) + Copies(actions[1..])
  }

  /** The directories created, in order. */
  function DirectoriesMade(actions: seq<Action>): seq<string> {
    if actions == [] then []
    else (if actions[0].MakeDirectory? then [actions[0].path] else []) + DirectoriesMade(actions[1..])
  }

  /** The plan with every copy outcome erased. */
  function Forget(actions: seq<Action>): (r: seq<Action>)
    ensures |r| == |actions|
    ensures forall i :: 0 <= i < |actions| ==> r[i] == if actions[i].CopyFile? then actions[i].(copied := false) else actions[i]
  {
    seq(|actions|, i requires 0 <= i < |actions| =>
      if actions[i].CopyFile? then actions[i].(copied := false) else actions[i])
  }

  /** What a copy of each node should be: its path under the docs root to its
      path under the files directory. */
  function Transfers(nodes: seq<FileNode>, docsPath: string, filesDir: string): (r: seq<(string, string)>)
    ensures |r| == |nodes|
    ensures forall i :: 0 <= i < |nodes| ==> r[i] == (Join(docsPath, nodes[i].path), Join(filesDir, nodes[i].path))
  {
    seq(|nodes|, i requires 0 <= i < |nodes| => (Join(docsPath, nodes[i].path), Join(filesDir, nodes[i].path)))
  }

  /** The parent of each node's target. */
  function TargetParents(nodes: seq<FileNode>, filesDir: string): (r: seq<string>)
    ensures |r| == |nodes|
    ensures forall i :: 0 <= i < |nodes| ==> r[i] == Dirname(Join(filesDir, nodes[i].path))
  {
    seq(|nodes|, i requires 0 <= i < |nodes| => Dirname(Join(filesDir, nodes[i].path)))
  }

  lemma {:induction false} CopiesAppend(a: seq<Action>, b: seq<Action>)
    ensures Copies(a + b) == Copies(a) + Copies(b)
    decreases a
  {
    if a == [] {
      assert a + b == b;
    } else {
      assert (a + b)[0] == a[0] && (a + b)[1..] == a[1..] + b;
      CopiesAppend(a[1..], b);
    }
  }

  lemma {:induction false} DirectoriesMadeAppend(a: seq<Action>, b: seq<Action>)
    ensures DirectoriesMade(a + b) == DirectoriesMade(a) + DirectoriesMade(b)
    decreases a
  {
    if a == [] {
      assert a + b == b;
    } else {
      assert (a + b)[0] == a[0] && (a + b)[1..] == a[1..] + b;
      DirectoriesMadeAppend(a[1..], b);
    }
  }

  lemma ForgetAppend(a: seq<Action>, b: seq<Action>)
    ensures Forget(a + b) == Forget(a) + Forget(b)
  {
    assert forall i :: 0 <= i < |a + b| ==> Forget(a + b)[i] == (Forget(a) + Forget(b))[i];
  }

  /** `copyFiles` makes exactly one copy attempt per leaf node (every node
      it does not descend into), in depth-first pre-order, from the node's
      path under the docs root to the same path under the files directory. */
  lemma {:induction false} CopyPlanCopiesLeaves(items: seq<FileNode>, docsPath: string, filesDir: string, copySucceeds: string -> bool)
    ensures Copies(CopyPlan(items, docsPath, filesDir, copySucceeds)) == Transfers(Leaves(items), docsPath, filesDir)
    decreases items
  {
    if items != [] {
      var init, last := items[..|items| - 1], items[|items| - 1];
      assert items == init + [last];
      CopyPlanCopiesLeaves(init, docsPath, filesDir, copySucceeds);
      ItemPlanCopiesLeaves(last, docsPath, filesDir, copySucceeds);
      CopiesAppend(CopyPlan(init, docsPath, filesDir, copySucceeds), ItemPlan(last, docsPath, filesDir, copySucceeds));
      LeavesAppend(init, [last]);
      assert Leaves([last]) == LeavesOf(last) by {
        assert [last][1..] == [];
      }
      TransfersAppend(Leaves(init), LeavesOf(last), docsPath, filesDir);
    }
  }

  lemma {:induction false} ItemPlanCopiesLeaves(item: FileNode, docsPath: string, filesDir: string, copySucceeds: string -> bool)
    ensures Copies(ItemPlan(item, docsPath, filesDir, copySucceeds)) == Transfers(LeavesOf(item), docsPath, filesDir)
    decreases item
  {
    var target := Join(filesDir, item.path);
    if Descends(item) {
      CopyPlanCopiesLeaves(item.children.nodes, docsPath, filesDir, copySucceeds);
      CopiesAppend([MakeDirectory(Dirname(target))], CopyPlan(item.children.nodes, docsPath, filesDir, copySucceeds));
    } else {
      var source := Join(docsPath, item.path);
      LeafActions(Dirname(target), source, target, copySucceeds(source));
    }
  }

  lemma LeafActions(parent: string, source: string, target: string, copied: bool)
    ensures Copies([MakeDirectory(parent), CopyFile(source, target, copied)]) == [(source, target)]
    ensures DirectoriesMade([MakeDirectory(parent), CopyFile(source, target, copied)]) == [parent]
  {
    var copy := [CopyFile(source, target, copied)];
    var plan := [MakeDirectory(parent)] + copy;
    assert copy[1..] == [];
    assert Copies(copy) == [(source, target)] + Copies([]);
    assert DirectoriesMade(copy) == [] + DirectoriesMade([]);
    assert plan[1..] == copy;
  }

  lemma TransfersAppend(a: seq<FileNode>, b: seq<FileNode>, docsPath: string, filesDir: string)
    ensures Transfers(a + b, docsPath, filesDir) == Transfers(a, docsPath, filesDir) + Transfers(b, docsPath, filesDir)
  {
    var l, r := Transfers(a + b, docsPath, filesDir), Transfers(a, docsPath, filesDir) + Transfers(b, docsPath, filesDir);
    forall i | 0 <= i < |l| ensures l[i] == r[i] {
      if i < |a| { assert (a + b)[i] == a[i]; } else { assert (a + b)[i] == b[i - |a|]; }
    }
  }

  lemma TargetParentsAppend(a: seq<FileNode>, b: seq<FileNode>, filesDir: string)
    ensures TargetParents(a + b, filesDir) == TargetParents(a, filesDir) + TargetParents(b, filesDir)
  {
    var l, r := TargetParents(a + b, filesDir), TargetParents(a, filesDir) + TargetParents(b, filesDir);
    forall i | 0 <= i < |l| ensures l[i] == r[i] {
      if i < |a| { assert (a + b)[i] == a[i]; } else { assert (a + b)[i] == b[i - |a|]; }
    }
  }

  /** The only directories `copyFiles` creates are the parents of the
      targets of the nodes it visits, one per node in pre-order; a node it
      descends into does not get its own target created. */
  lemma {:induction false} CopyPlanDirectories(items: seq<FileNode>, docsPath: string, filesDir: string, copySucceeds: string -> bool)
    ensures DirectoriesMade(CopyPlan(items, docsPath, filesDir, copySucceeds)) == TargetParents(Visited(items), filesDir)
    decreases items
  {
    if items != [] {
      var init, last := items[..|items| - 1], items[|items| - 1];
      assert items == init + [last];
      CopyPlanDirectories(init, docsPath, filesDir, copySucceeds);
      ItemPlanDirectories(last, docsPath, filesDir, copySucceeds);
      DirectoriesMadeAppend(CopyPlan(init, docsPath, filesDir, copySucceeds), ItemPlan(last, docsPath, filesDir, copySucceeds));
      VisitedAppend(init, [last]);
      assert Visited([last]) == VisitedFrom(last) by {
        assert [last][1..] == [];
      }
      TargetParentsAppend(Visited(init), VisitedFrom(last), filesDir);
    }
  }

  lemma {:induction false} ItemPlanDirectories(item: FileNode, docsPath: string, filesDir: string, copySucceeds: string -> bool)
    ensures DirectoriesMade(ItemPlan(item, docsPath, filesDir, copySucceeds)) == TargetParents(VisitedFrom(item), filesDir)
    decreases item
  {
    var target := Join(filesDir, item.path);
    if Descends(item) {
      CopyPlanDirectories(item.children.nodes, docsPath, filesDir, copySucceeds);
      DirectoriesMadeAppend([MakeDirectory(Dirname(target))], CopyPlan(item.children.nodes, docsPath, filesDir, copySucceeds));
      TargetParentsAppend([item], Visited(item.children.nodes), filesDir);
    } else {
      var source := Join(docsPath, item.path);
      LeafActions(Dirname(target), source, target, copySucceeds(source));
    }
  }

  /** A failed copy changes nothing but its own outcome: whatever the copy
      outcomes, the same actions happen in the same order. */
  lemma {:induction false} CopyOutcomesDoNotAlterPlan(items: seq<FileNode>, docsPath: string, filesDir: string,
                                                      ok1: string -> bool, ok2: string -> bool)
    ensures Forget(CopyPlan(items, docsPath, filesDir, ok1)) == Forget(CopyPlan(items, docsPath, filesDir, ok2))
    decreases items
  {
    if items != [] {
      var init, last := items[..|items| - 1], items[|items| - 1];
      CopyOutcomesDoNotAlterPlan(init, docsPath, filesDir, ok1, ok2);
      ItemOutcomesDoNotAlterPlan(last, docsPath, filesDir, ok1, ok2);
      ForgetAppend(CopyPlan(init, docsPath, filesDir, ok1), ItemPlan(last, docsPath, filesDir, ok1));
      ForgetAppend(CopyPlan(init, docsPath, filesDir, ok2), ItemPlan(last, docsPath, filesDir, ok2));
    }
  }

  lemma {:induction false} ItemOutcomesDoNotAlterPlan(item: FileNode, docsPath: string, filesDir: string,
                                                      ok1: string -> bool, ok2: string -> bool)
    ensures Forget(ItemPlan(item, docsPath, filesDir, ok1)) == Forget(ItemPlan(item, docsPath, filesDir, ok2))
    decreases item
  {
    if Descends(item) {
      var m := [MakeDirectory(Dirname(Join(filesDir, item.path)))];
      CopyOutcomesDoNotAlterPlan(item.children.nodes, docsPath, filesDir, ok1, ok2);
      ForgetAppend(m, CopyPlan(item.children.nodes, docsPath, filesDir, ok1));
      ForgetAppend(m, CopyPlan(item.children.nodes, docsPath, filesDir, ok2));
    }
  }

  /** The tree written to `files.json` is the tree `copyFiles` walks, so the
      copied files are exactly the leaves listed in `files.json`, and the
      output directories are created before anything else. */
  lemma TreeWrittenIsTreeCopied(listing: Listing, docsPath: string, outputPath: string, filesDir: string, copySucceeds: string -> bool)
    ensures var plan := ExportPlan(listing, docsPath, outputPath, filesDir, copySucceeds);
      && |plan| >= 3
      && plan[0] == MakeDirectory(outputPath) && plan[1] == MakeDirectory(filesDir)
      && plan[2] == WriteTree(Join(outputPath, "files.json"), Server.Scan(listing, ""))
      && Copies(plan) == Transfers(Leaves(plan[2].tree), docsPath, filesDir)
  {
    var tree := Server.Scan(listing, "");
    var head := [MakeDirectory(outputPath), MakeDirectory(filesDir), WriteTree(Join(outputPath, "files.json"), tree)];
    CopiesAppend(head, CopyPlan(tree, docsPath, filesDir, copySucceeds));
    assert Copies(head) == [] by {
      var w := [head[2]];
      assert w[1..] == [];
      assert Copies(w) == [] + Copies([]);
      var m := [head[1]] + w;
      assert m[1..] == w;
      assert head[1..] == m;
    }
    CopyPlanCopiesLeaves(tree, docsPath, filesDir, copySucceeds);
  }

  // ---------------------------------------------------------------------
  // Where the copies go

  /** The source and target of a leaf mirror its relative path under the
      docs root and under the files directory. */
  function Mirrored(nodes: seq<FileNode>, docsSegs: seq<string>, filesSegs: seq<string>): (r: seq<(string, string)>)
    ensures |r| == |nodes|
    ensures forall i :: 0 <= i < |nodes| ==>
      r[i] == (AbsPath(docsSegs + Split(nodes[i].path)), RelPath(filesSegs) + "/" + nodes[i].path)
  {
    seq(|nodes|, i requires 0 <= i < |nodes| =>
      (AbsPath(docsSegs + Split(nodes[i].path)), RelPath(filesSegs) + "/" + nodes[i].path))
  }

  /** A relative files directory such as "./file-viewer/public/files":
      it resolves to the plain segments `filesSegs`. */
  predicate FilesDirResolvesTo(filesDir: string, filesSegs: seq<string>) {
    filesDir != [] && filesDir[0] != '/' && filesSegs != []
    && Resolve([], Split(filesDir), true) == filesSegs && AllPlain(filesSegs)
  }

  /** For a plain relative path `p`, the source is `p` under the docs root
      and the target is the files directory, '/', `p`. */
  lemma MirrorPath(docsSegs: seq<string>, filesDir: string, filesSegs: seq<string>, p: string)
    requires AllPlain(docsSegs) && FilesDirResolvesTo(filesDir, filesSegs) && PlainRelative(p)
    ensures Join(AbsPath(docsSegs), p) == AbsPath(docsSegs + Split(p))
    ensures Join(filesDir, p) == RelPath(filesSegs) + "/" + p
  {
    JoinSplit(p);
    JoinAbsoluteBase(docsSegs, Split(p));
    JoinRelativeBase(filesDir, filesSegs, Split(p));
    RelPathConcat(filesSegs, Split(p));
  }

  /** Every file of the scanned tree is copied from its relative path under
      the docs root to the same relative path under the files directory. */
  lemma ExportMirrorsPaths(listing: Listing, docsSegs: seq<string>, outputPath: string,
                           filesDir: string, filesSegs: seq<string>, copySucceeds: string -> bool)
    requires AllPlain(docsSegs) && FilesDirResolvesTo(filesDir, filesSegs)
    ensures Copies(ExportPlan(listing, AbsPath(docsSegs), outputPath, filesDir, copySucceeds))
         == Mirrored(Leaves(Server.Scan(listing, "")), docsSegs, filesSegs)
  {
    var tree := Server.Scan(listing, "");
    TreeWrittenIsTreeCopied(listing, AbsPath(docsSegs), outputPath, filesDir, copySucceeds);
    Server.ScanPathsFollowNames(listing, []);
    LeafPathsPlain(tree, []);
    var leaves := Leaves(tree);
    var t, m := Transfers(leaves, AbsPath(docsSegs), filesDir), Mirrored(leaves, docsSegs, filesSegs);
    forall i | 0 <= i < |leaves| ensures t[i] == m[i] {
      MirrorPath(docsSegs, filesDir, filesSegs, leaves[i].path);
    }
  }

  /** The directory created for a node at `dir + [name]` is the target of
      its parent directory (the files directory itself at the top), never the
      node's own target: an empty directory is not reproduced. */
  lemma DirectoryCreatesOnlyParent(filesDir: string, filesSegs: seq<string>, dir: seq<string>, name: string)
    requires FilesDirResolvesTo(filesDir, filesSegs) && AllPlain(dir) && PlainSegment(name)
    ensures Dirname(Join(filesDir, RelPath(dir + [name]))) == RelPath(filesSegs + dir)
    ensures dir != [] ==> Dirname(Join(filesDir, RelPath(dir + [name]))) == Join(filesDir, RelPath(dir))
    ensures Dirname(Join(filesDir, RelPath(dir + [name]))) != Join(filesDir, RelPath(dir + [name]))
  {
    assert AllPlain(dir + [name]);
    JoinRelativeBase(filesDir, filesSegs, dir + [name]);
    assert filesSegs + (dir + [name]) == (filesSegs + dir) + [name];
    assert AllPlain((filesSegs + dir) + [name]);
    DirnameRelPath((filesSegs + dir) + [name]);
    assert ((filesSegs + dir) + [name])[..|filesSegs + dir|] == filesSegs + dir;
    RelPathConcat(filesSegs + dir, [name]);
    if dir != [] {
      JoinRelativeBase(filesDir, filesSegs, dir);
    }
  }

  const FILES_SEGMENTS: seq<string> := ["file-viewer", "public", "files"]

  lemma FilesSegmentsSpelled(x: string)
    requires x == "file-viewer/public/files"
    ensures x == RelPath(FILES_SEGMENTS) && AllPlain(FILES_SEGMENTS)
  {
    assert JoinSegments(["files"]) == "files";
    assert JoinSegments(["public", "files"]) == "public/files";
  }

  lemma FilesDirSpelled(d: string, x: string)
    requires d == FILES_DIR && x == "file-viewer/public/files"
    ensures d == "." + "/" + x
  {
  }

  /** This script's files directory resolves to file-viewer/public/files. */
  lemma FilesDirSegments(d: string)
    requires d == FILES_DIR
    ensures FilesDirResolvesTo(d, FILES_SEGMENTS)
    ensures RelPath(FILES_SEGMENTS) == "file-viewer/public/files"
  {
    var x := "file-viewer/public/files";
    FilesSegmentsSpelled(x);
    FilesDirSpelled(d, x);
    DotSlashResolves(d, FILES_SEGMENTS);
  }

  lemma FilesPrefixSpelled(y: string)
    requires y == "file-viewer/public/files/"
    ensures y == RelPath(FILES_SEGMENTS) + "/"
  {
    var x := "file-viewer/public/files";
    FilesSegmentsSpelled(x);
    assert y == x + "/";
  }

  /** For this script, with the docs root at the plain segments `docsSegs`,
      every file of the scanned tree at path `p` is copied from the docs
      root's `p` to file-viewer/public/files/`p`. */
  lemma RootScriptMirrorsPaths(listing: Listing, docsSegs: seq<string>, outputPath: string, filesDir: string,
                               copySucceeds: string -> bool)
    requires AllPlain(docsSegs) && filesDir == FILES_DIR
    ensures var leaves := Leaves(Server.Scan(listing, ""));
      var copies := Copies(ExportPlan(listing, AbsPath(docsSegs), outputPath, filesDir, copySucceeds));
      && |copies| == |leaves|
      && forall i :: 0 <= i < |leaves| ==>
           copies[i] == (AbsPath(docsSegs + Split(leaves[i].path)), "file-viewer/public/files/" + leaves[i].path)
  {
    FilesDirSegments(filesDir);
    ExportMirrorsPaths(listing, docsSegs, outputPath, filesDir, FILES_SEGMENTS, copySucceeds);
    FilesPrefixSpelled("file-viewer/public/files/");
  }
}
