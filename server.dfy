/** file-viewer/server.js: the recursive directory scan behind `/api/files`
    and the decision `/api/file-content` takes for a requested path. The
    host filesystem is an abstract `Listing` tree for the scan and a map from
    absolute paths to objects for the content endpoint. */
module Server {
  import opened Wrappers
  import opened Strings
  import opened PosixPath
  import opened Types
  import opened FileUtils

  /** The fixed docs root the server reads. */
  const DOCS_PATH: string := "/Users/weixu/docs"

  // ---------------------------------------------------------------------
  // The scan

  /** The two skip tests of the scan loop: hidden names at every depth, and
      the viewer's own directory and CLAUDE.md at the top level only. */
  predicate Skipped(name: string, relativePath: string) {
    StartsWith(name, ".") || ((name == "file-viewer" || name == "CLAUDE.md") && relativePath == "")
  }

  /** The tree `scanDirectory` returns for a directory whose `readdir` gave
      `listing`, at relative path `relativePath`: nothing when the listing
      fails, otherwise the kept entries in listing order. */
  function Scan(listing: Listing, relativePath: string): seq<FileNode>
    decreases listing
  {
    match listing
    case Unreadable => []
    case Listed(entries) => ScanEntries(entries, relativePath)
  }

  /** The items pushed after the loop has visited `entries`. */
  function ScanEntries(entries: seq<Entry>, relativePath: string): seq<FileNode>
    decreases entries
  {
    if entries == [] then []
    else ScanEntries(entries[..|entries| - 1], relativePath) + EntryNodes(entries[|entries| - 1], relativePath)
  }

  /** What one entry contributes: nothing when skipped, else one node whose
      path is `path.join(relativePath, name)`; a directory carries the scan
      of its own listing as children. */
  function EntryNodes(entry: Entry, relativePath: string): seq<FileNode>
    decreases entry
  {
    if Skipped(entry.name, relativePath) then []
    else
      var path := Join(relativePath, entry.name);
      match entry
      case File(name) => [FileNode(name, path, false, Absent)]
      case Dir(name, listing) => [FileNode(name, path, true, Present(Scan(listing, path)))]
  }

  /** `scanDirectory(dirPath, relativePath)`: a push loop over the entries;
      a failing `readdir` is caught and leaves `items` empty. */
  method ScanDirectory(listing: Listing, relativePath: string) returns (items: seq<FileNode>)
    ensures items == Scan(listing, relativePath)
    decreases listing
  {
    items := [];
    if listing.Unreadable? {
      return;
    }
    var entries := listing.entries;
    var i := 0;
    while i < |entries|
      invariant 0 <= i <= |entries|
      invariant items == ScanEntries(entries[..i], relativePath)
    {
      var entry := entries[i];
      assert entries[..i + 1][..i] == entries[..i];
      i := i + 1;
      if StartsWith(entry.name, ".") {
        continue;
      }
      if (entry.name == "file-viewer" || entry.name == "CLAUDE.md") && relativePath == "" {
        continue;
      }
      var relativeFullPath := Join(relativePath, entry.name);
      if entry.Dir? {
        var children := ScanDirectory(entry.listing, relativeFullPath);
        items := items + [FileNode(entry.name, relativeFullPath, true, Present(children))];
      } else {
        items := items + [FileNode(entry.name, relativeFullPath, false, Absent)];
      }
    }
    assert entries[..i] == entries;
  }

  // ---------------------------------------------------------------------
  // Properties of the scanned tree

  lemma {:induction false} ScanNoHidden(listing: Listing, relativePath: string)
    ensures NoHidden(Scan(listing, relativePath))
    decreases listing
  {
    if listing.Listed? {
      ScanEntriesNoHidden(listing.entries, relativePath);
    }
  }

  /** No node at any depth has a name starting with '.'. */
  lemma {:induction false} ScanEntriesNoHidden(entries: seq<Entry>, relativePath: string)
    ensures NoHidden(ScanEntries(entries, relativePath))
    decreases entries
  {
    if entries != [] {
      var last := entries[|entries| - 1];
      ScanEntriesNoHidden(entries[..|entries| - 1], relativePath);
      if !Skipped(last.name, relativePath) && last.Dir? {
        ScanNoHidden(last.listing, Join(relativePath, last.name));
      }
    }
  }

  /** Directory nodes carry a (possibly empty) children list at every depth;
      file nodes never do. */
  lemma {:induction false} ScanWellShaped(listing: Listing, relativePath: string)
    ensures WellShaped(Scan(listing, relativePath))
    decreases listing
  {
    if listing.Listed? {
      ScanEntriesWellShaped(listing.entries, relativePath);
    }
  }

  lemma {:induction false} ScanEntriesWellShaped(entries: seq<Entry>, relativePath: string)
    ensures WellShaped(ScanEntries(entries, relativePath))
    decreases entries
  {
    if entries != [] {
      var last := entries[|entries| - 1];
      ScanEntriesWellShaped(entries[..|entries| - 1], relativePath);
      if !Skipped(last.name, relativePath) && last.Dir? {
        ScanWellShaped(last.listing, Join(relativePath, last.name));
      }
    }
  }

  /** A name the scan keeps is a plain path segment. */
  lemma KeptNameIsPlain(name: EntryName, relativePath: string)
    requires !Skipped(name, relativePath)
    ensures PlainSegment(name)
  {
    assert name[..1] == [name[0]];
  }

  /** Every node's name is a plain segment and its path is its parent's
      path joined with its name (just the name at the top), so the last
      segment of a path is the node's name. */
  lemma {:induction false} ScanPathsFollowNames(listing: Listing, dir: seq<string>)
    requires AllPlain(dir)
    ensures PathsFollowNames(Scan(listing, RelPath(dir)), dir)
    decreases listing
  {
    if listing.Listed? {
      ScanEntriesPathsFollowNames(listing.entries, dir);
    }
  }

  lemma {:induction false} ScanEntriesPathsFollowNames(entries: seq<Entry>, dir: seq<string>)
    requires AllPlain(dir)
    ensures PathsFollowNames(ScanEntries(entries, RelPath(dir)), dir)
    decreases entries
  {
    if entries != [] {
      var rel := RelPath(dir);
      var last := entries[|entries| - 1];
      ScanEntriesPathsFollowNames(entries[..|entries| - 1], dir);
      if !Skipped(last.name, rel) {
        KeptNameIsPlain(last.name, rel);
        JoinRelative(dir, last.name);
        if last.Dir? {
          assert AllPlain(dir + [last.name]);
          ScanPathsFollowNames(last.listing, dir + [last.name]);
        }
      }
    }
  }

  /** The names of a listing's kept entries, in listing order (a filter
      written front to back, independently of the scan). */
  function Unskipped(entries: seq<Entry>, relativePath: string): seq<string> {
    if entries == [] then []
    else (if Skipped(entries[0].name, relativePath) then [] else [entries[0].name])
         + Unskipped(entries[1..], relativePath)
  }

  lemma {:induction false} UnskippedAppend(entries: seq<Entry>, e: Entry, relativePath: string)
    ensures Unskipped(entries + [e], relativePath)
         == Unskipped(entries, relativePath) + (if Skipped(e.name, relativePath) then [] else [e.name])
    decreases entries
  {
    if entries == [] {
      assert [e][1..] == [];
    } else {
      assert (entries + [e])[1..] == entries[1..] + [e];
      UnskippedAppend(entries[1..], e, relativePath);
    }
  }

  /** The siblings of one directory are its listing minus the skipped
      entries, in listing order and unsorted. */
  lemma {:induction false} ScanKeepsListingOrder(entries: seq<Entry>, relativePath: string)
    ensures Names(ScanEntries(entries, relativePath)) == Unskipped(entries, relativePath)
    decreases entries
  {
    if entries != [] {
      var init, last := entries[..|entries| - 1], entries[|entries| - 1];
      ScanKeepsListingOrder(init, relativePath);
      assert entries == init + [last];
      UnskippedAppend(init, last, relativePath);
    }
  }

  lemma {:induction false} UnskippedMembers(entries: seq<Entry>, relativePath: string, x: string)
    ensures x in Unskipped(entries, relativePath)
        <==> !Skipped(x, relativePath) && exists i :: 0 <= i < |entries| && entries[i].name == x
    decreases entries
  {
    if entries != [] {
      UnskippedMembers(entries[1..], relativePath, x);
      if exists i :: 0 <= i < |entries| && entries[i].name == x {
        var i :| 0 <= i < |entries| && entries[i].name == x;
        if i > 0 { assert entries[1..][i - 1].name == x; }
      }
      if exists j :: 0 <= j < |entries[1..]| && entries[1..][j].name == x {
        var j :| 0 <= j < |entries[1..]| && entries[1..][j].name == x;
        assert entries[j + 1].name == x;
      }
    }
  }

  /** At the top level `file-viewer` and `CLAUDE.md` never appear. */
  lemma TopLevelExclusions(entries: seq<Entry>)
    ensures "file-viewer" !in Names(Scan(Listed(entries), ""))
    ensures "CLAUDE.md" !in Names(Scan(Listed(entries), ""))
  {
    ScanKeepsListingOrder(entries, "");
    UnskippedMembers(entries, "", "file-viewer");
    UnskippedMembers(entries, "", "CLAUDE.md");
  }

  /** Below the top level, an entry named `file-viewer` or `CLAUDE.md` is
      kept like any other. */
  lemma NestedNamesKept(entries: seq<Entry>, relativePath: string, i: int)
    requires relativePath != "" && 0 <= i < |entries|
    requires entries[i].name == "file-viewer" || entries[i].name == "CLAUDE.md"
    ensures entries[i].name in Names(Scan(Listed(entries), relativePath))
  {
    var x := entries[i].name;
    assert !StartsWith(x, ".") by {
      assert x[0] != '.';
    }
    ScanKeepsListingOrder(entries, relativePath);
    UnskippedMembers(entries, relativePath, x);
  }

  // ---------------------------------------------------------------------
  // The content endpoint

  /** What `fs.stat` finds at an absolute path: a regular file, whose
      `readFile` yields its text or fails, or any other kind of object.
      A path absent from the host map makes `stat` throw. */
  datatype HostObject = RegularFile(text: Option<string>) | OtherObject

  type Host = map<string, HostObject>

  /** The reply: an error status with its JSON message, the file sent as it
      is, or `{content, type: 'text'}`. */
  datatype Response = Failure(status: int, error: string) | SendFile(path: string) | TextJson(content: string)

  /** The server's four extension branches. */
  datatype Bucket = Markup | StructuredText | Viewable | Unsupported

  const VIEWABLE_EXTENSIONS: seq<string> := ["jpg", "jpeg", "png", "gif", "webp", "svg", "pdf"]

  /** The branch a filepath takes: `.html`/`.htm` after lower-casing, then the
      text regex, then the image/PDF regex, then 415. */
  function Classify(filepath: string): Bucket {
    if EndsWith(Lower(filepath), ".html") || EndsWith(Lower(filepath), ".htm") then Markup
    else if MatchesExtension(filepath, TEXT_EXTENSIONS) then StructuredText
    else if MatchesExtension(filepath, VIEWABLE_EXTENSIONS) then Viewable
    else Unsupported
  }

  /** The `/api/file-content` handler for query parameter `filepath` (absent
      is `None`), docs root `root` and host filesystem `host`. */
  function FileContent(root: string, filepath: Option<string>, host: Host): Response {
    if filepath.None? || filepath.value == "" then Failure(400, "filepath parameter is required")
    else
      var fullPath := Join(root, filepath.value);
      if !StartsWith(fullPath, root) then Failure(403, "Access denied")
      else if fullPath !in host then Failure(500, "Failed to read file")
      else if host[fullPath].OtherObject? then Failure(400, "Path is not a file")
      else match Classify(filepath.value)
        case Markup => SendFile(fullPath)
        case StructuredText =>
          if host[fullPath].text.None? then Failure(500, "Failed to read file")
          else TextJson(host[fullPath].text.value)
        case Viewable => SendFile(fullPath)
        case Unsupported => Failure(415, "Unsupported file type")
  }

  /** The checks run in a fixed order, and each status comes from one check:
      400 for a missing parameter or a non-file, 403 only from the prefix
      test, 500 (not 404) for a path that does not exist or a text file
      that cannot be read, 415 only for an unsupported extension; a file is
      sent or read only when every check passes. */
  lemma RequestCheckOrder(root: string, filepath: Option<string>, host: Host)
    ensures var r := FileContent(root, filepath, host);
      var present := filepath.Some? && filepath.value != "";
      var full := if present then Join(root, filepath.value) else "";
      && (r == Failure(400, "filepath parameter is required") <==> !present)
      && (r.Failure? && r.status == 403 <==> present && !StartsWith(full, root))
      && (r == Failure(500, "Failed to read file") <==>
            present && StartsWith(full, root)
            && (full !in host
                || (host[full].RegularFile? && Classify(filepath.value) == StructuredText && host[full].text.None?)))
      && (r == Failure(400, "Path is not a file") <==>
            present && StartsWith(full, root) && full in host && host[full].OtherObject?)
      && (r.Failure? && r.status == 415 <==>
            present && StartsWith(full, root) && full in host && host[full].RegularFile?
            && Classify(filepath.value) == Unsupported)
      && (!r.Failure? ==> present && StartsWith(full, root) && full in host && host[full].RegularFile?)
  {
    var r := FileContent(root, filepath, host);
    if filepath.Some? && filepath.value != "" {
      var full := Join(root, filepath.value);
      if StartsWith(full, root) && full in host && host[full].RegularFile? {
        assert r.Failure? ==> r.status == 500 || r.status == 415;
      }
    }
  }

  /** What a request that passes every check gets, by the branch of its
      extension: the file itself for markup and images/PDF, its text for a
      readable text file, 500 when reading it fails, and 415 otherwise. */
  lemma PassingRequestReply(root: string, filepath: string, host: Host)
    ensures var full := Join(root, filepath);
      var r := FileContent(root, Some(filepath), host);
      filepath != "" && StartsWith(full, root) && full in host && host[full].RegularFile? ==>
        && (Classify(filepath) in {Markup, Viewable} ==> r == SendFile(full))
        && (Classify(filepath) == StructuredText && host[full].text.Some? ==> r == TextJson(host[full].text.value))
        && (Classify(filepath) == StructuredText && host[full].text.None? ==> r == Failure(500, "Failed to read file"))
        && (Classify(filepath) == Unsupported ==> r == Failure(415, "Unsupported file type"))
  {
  }

  /** A filepath none of whose segments is ".." always passes the
      containment check. */
  lemma NoDotDotPassesContainment(rootSegments: seq<string>, filepath: string, host: Host)
    requires AllPlain(rootSegments)
    requires filepath != "" && ".." !in Split(filepath)
    ensures FileContent(AbsPath(rootSegments), Some(filepath), host) != Failure(403, "Access denied")
  {
    JoinWithoutDotDotStaysUnder(rootSegments, filepath);
  }

  /** The containment check is a raw string-prefix test, so ".." into a
      sibling directory whose name extends the root's last segment passes
      it: the resolved path is neither the root nor below it, yet the file
      there is served. */
  lemma SiblingDirectoryPassesContainment(parent: seq<string>, last: string, extra: string, rest: string, host: Host)
    requires AllPlain(parent) && PlainSegment(last) && PlainSegment(rest)
    requires extra != [] && '/' !in extra
    ensures var root := AbsPath(parent + [last]);
      var full := AbsPath(parent + [last + extra, rest]);
      var request := "../" + last + extra + "/" + rest;
      var r := FileContent(root, Some(request), host);
      && full != root && !StartsWith(full, root + "/")
      && r != Failure(403, "Access denied")
      && (full in host && host[full].RegularFile? && Classify(request) in {Markup, Viewable} ==> r == SendFile(full))
      && ((full in host && host[full].RegularFile? && host[full].text.Some? && Classify(request) == StructuredText)
            ==> r == TextJson(host[full].text.value))
  {
    SiblingPassesPrefixTest(parent, last, extra, rest);
  }

  lemma DocsRootSegments()
    ensures AbsPath(["Users", "weixu", "docs"]) == DOCS_PATH
  {
    assert JoinSegments(["docs"]) == "docs";
    assert JoinSegments(["weixu", "docs"]) == "weixu/docs";
  }

  lemma SiblingFileSegments()
    ensures AbsPath(["Users", "weixu"] + ["docs" + "2", "notes.txt"]) == "/Users/weixu/docs2/notes.txt"
  {
    assert "docs" + "2" == "docs2";
    assert ["Users", "weixu"] + ["docs" + "2", "notes.txt"] == ["Users", "weixu", "docs2", "notes.txt"];
    SiblingFileJoined();
    SiblingFileRooted();
  }

  lemma SiblingFileRooted()
    ensures "/" + "Users/weixu/docs2/notes.txt" == "/Users/weixu/docs2/notes.txt"
  {
  }

  lemma SiblingFileJoined()
    ensures JoinSegments(["Users", "weixu", "docs2", "notes.txt"]) == "Users/weixu/docs2/notes.txt"
  {
    SiblingTailJoined();
    assert ["Users", "weixu", "docs2", "notes.txt"][1..] == ["weixu", "docs2", "notes.txt"];
    assert "Users" + "/" + "weixu/docs2/notes.txt" == "Users/weixu/docs2/notes.txt";
  }

  lemma SiblingTailJoined()
    ensures JoinSegments(["weixu", "docs2", "notes.txt"]) == "weixu/docs2/notes.txt"
  {
    assert ["weixu", "docs2", "notes.txt"][1..] == ["docs2", "notes.txt"];
    assert ["docs2", "notes.txt"][1..] == ["notes.txt"];
    assert JoinSegments(["notes.txt"]) == "notes.txt";
    assert "docs2" + "/" + "notes.txt" == "docs2/notes.txt";
    assert "weixu" + "/" + "docs2/notes.txt" == "weixu/docs2/notes.txt";
  }

  lemma NotesIsText()
    ensures Classify("../docs2/notes.txt") == StructuredText
  {
    var request := "../docs2/notes.txt";
    assert '.' in request by { assert request[0] == '.'; }
    assert Lower(request) == request;
    assert AfterLastDot(request) == "txt" by {
      assert '.' !in "txt";
      assert request[|request| - 4..] == ".txt";
      EndsWithDotExt(request, "txt");
    }
    TextByLastExtension(request);
  }

  lemma SiblingRequestSpelled(request: string)
    requires request == "../docs2/notes.txt"
    ensures request == "../" + "docs" + "2" + "/" + "notes.txt"
  {
  }

  lemma DocsSiblingServedAt(request: string, full: string, secret: string, host: Host)
    requires request == "../" + "docs" + "2" + "/" + "notes.txt"
    requires full == AbsPath(["Users", "weixu"] + ["docs" + "2", "notes.txt"])
    requires host == map[full := RegularFile(Some(secret))]
    requires Classify(request) == StructuredText
    ensures FileContent(AbsPath(["Users", "weixu"] + ["docs"]), Some(request), host) == TextJson(secret)
  {
    SiblingDirectoryPassesContainment(["Users", "weixu"], "docs", "2", "notes.txt", host);
  }

  /** The instance for the server's own root: `../docs2/notes.txt` reads
      `/Users/weixu/docs2/notes.txt`, outside the docs directory. */
  lemma DocsSiblingIsServed(request: string, full: string, secret: string)
    requires request == "../docs2/notes.txt" && full == "/Users/weixu/docs2/notes.txt"
    ensures FileContent(DOCS_PATH, Some(request), map[full := RegularFile(Some(secret))]) == TextJson(secret)
  {
    var host := map[full := RegularFile(Some(secret))];
    DocsRootSegments();
    SiblingFileSegments();
    NotesIsText();
    SiblingRequestSpelled(request);
    assert ["Users", "weixu"] + ["docs"] == ["Users", "weixu", "docs"];
    DocsSiblingServedAt(request, full, secret, host);
  }

  /** The branch depends only on what follows the last '/' when that part
      holds a '.'. */
  lemma ClassifyBySuffix(filepath: string, rest: string)
    requires EndsWith(filepath, rest) && '.' in rest
    ensures Classify(filepath) == Classify(rest)
  {
    var pre := filepath[..|filepath| - |rest|];
    assert filepath == pre + rest;
    LowerAppend(pre, rest);
    LowerKeepsDots(rest);
    AfterLastDotOfSuffix(Lower(pre), Lower(rest));
    BucketByLastExtension(filepath);
    BucketByLastExtension(rest);
  }

  /** `split('.').pop()` looks only at the part after the last '.'. */
  lemma {:induction false} AfterLastDotOfSuffix(a: string, b: string)
    requires '.' in b
    ensures AfterLastDot(a + b) == AfterLastDot(b)
    decreases |b|
  {
    var s := a + b;
    assert s[|s| - 1] == b[|b| - 1];
    if b[|b| - 1] != '.' {
      assert s[..|s| - 1] == a + b[..|b| - 1];
      assert '.' in b[..|b| - 1] by {
        var k :| 0 <= k < |b| && b[k] == '.';
        assert k < |b| - 1 && b[..|b| - 1][k] == '.';
      }
      AfterLastDotOfSuffix(a, b[..|b| - 1]);
    }
  }

  /** A suffix test written as a literal ".ext" is the dot-and-extension
      test of `EndsWithDotExt`. */
  lemma EndsWithLiteralExt(l: string, suffix: string, ext: string)
    requires '.' !in ext && suffix == "." + ext
    ensures EndsWith(l, suffix) <==> '.' in l && AfterLastDot(l) == ext
  {
    EndsWithDotExt(l, ext);
  }

  lemma MarkupByLastExtension(filepath: string)
    ensures Classify(filepath) == Markup <==> '.' in filepath && AfterLastDot(Lower(filepath)) in HTML_EXTENSIONS
  {
    var l := Lower(filepath);
    LowerKeepsDots(filepath);
    EndsWithLiteralExt(l, ".html", "html");
    EndsWithLiteralExt(l, ".htm", "htm");
  }

  lemma TextByLastExtension(filepath: string)
    ensures Classify(filepath) == StructuredText <==> '.' in filepath && AfterLastDot(Lower(filepath)) in TEXT_EXTENSIONS
  {
    MarkupByLastExtension(filepath);
    ExtensionListsDotFree();
    MatchesExtensionIffLastExtension(filepath, TEXT_EXTENSIONS);
    ExtensionListsDisjoint(AfterLastDot(Lower(filepath)));
  }

  lemma ViewableDisjoint(e: string)
    requires e in VIEWABLE_EXTENSIONS
    ensures e !in HTML_EXTENSIONS && e !in TEXT_EXTENSIONS
  {
  }

  lemma ViewableMatches(filepath: string)
    ensures MatchesExtension(filepath, VIEWABLE_EXTENSIONS)
        <==> '.' in filepath && AfterLastDot(Lower(filepath)) in VIEWABLE_EXTENSIONS
  {
    assert DotFree(VIEWABLE_EXTENSIONS);
    MatchesExtensionIffLastExtension(filepath, VIEWABLE_EXTENSIONS);
  }

  lemma ViewableByLastExtension(filepath: string)
    ensures Classify(filepath) == Viewable <==> '.' in filepath && AfterLastDot(Lower(filepath)) in VIEWABLE_EXTENSIONS
  {
    var ext := AfterLastDot(Lower(filepath));
    MarkupByLastExtension(filepath);
    TextByLastExtension(filepath);
    ViewableMatches(filepath);
    if '.' in filepath && ext in VIEWABLE_EXTENSIONS {
      ViewableDisjoint(ext);
    }
  }

  /** Each branch is fixed by the lower-cased text after the last '.'; a
      path without '.' is always refused. */
  lemma BucketByLastExtension(filepath: string)
    ensures var ext := AfterLastDot(Lower(filepath));
      Classify(filepath)
        == if '.' !in filepath then Unsupported
           else if ext in HTML_EXTENSIONS then Markup
           else if ext in TEXT_EXTENSIONS then StructuredText
           else if ext in VIEWABLE_EXTENSIONS then Viewable
           else Unsupported
  {
    MarkupByLastExtension(filepath);
    TextByLastExtension(filepath);
    ViewableByLastExtension(filepath);
  }

  /** The buckets are disjoint: a path matching one of the extension tests
      matches no other, so the branch order does not matter. */
  lemma BucketsDisjoint(filepath: string)
    ensures MatchesExtension(filepath, HTML_EXTENSIONS) ==>
      !MatchesExtension(filepath, TEXT_EXTENSIONS) && !MatchesExtension(filepath, VIEWABLE_EXTENSIONS)
    ensures MatchesExtension(filepath, TEXT_EXTENSIONS) ==> !MatchesExtension(filepath, VIEWABLE_EXTENSIONS)
  {
    var ext := AfterLastDot(Lower(filepath));
    ExtensionListsDotFree();
    MatchesExtensionIffLastExtension(filepath, HTML_EXTENSIONS);
    MatchesExtensionIffLastExtension(filepath, TEXT_EXTENSIONS);
    ViewableMatches(filepath);
    if ext in VIEWABLE_EXTENSIONS {
      ViewableDisjoint(ext);
    }
    if ext in TEXT_EXTENSIONS {
      ExtensionListsDisjoint(ext);
    }
  }

  /** For a filepath with a '.', the viewer's file type and the server's
      branch agree: 'text' exactly for the JSON text branch, 'html', 'pdf'
      or 'image' exactly for the raw branches, 'unknown' exactly for 415. */
  lemma ClassifyAgreesWithGetFileType(filepath: string)
    requires '.' in filepath
    ensures Classify(filepath) == StructuredText <==> GetFileType(filepath) == Text
    ensures Classify(filepath) in {Markup, Viewable} <==> GetFileType(filepath) in {Html, Pdf, Image}
    ensures Classify(filepath) == Unsupported <==> GetFileType(filepath) == Unknown
  {
    BucketByLastExtension(filepath);
    ExtensionListsDisjoint(AfterLastDot(Lower(filepath)));
  }

  /** Without a '.', the two disagree: a file called "pdf" is a 'pdf' to
      the viewer but the server refuses it with 415. */
  lemma DotlessNameDisagrees()
    ensures GetFileType("pdf") == Pdf
    ensures Classify("pdf") == Unsupported
  {
    assert Lower("pdf") == "pdf" && '.' !in "pdf";
    AfterLastDotSpec("pdf");
    BucketByLastExtension("pdf");
  }

  /** The branch ignores letter case. */
  lemma ClassifyIgnoresCase(filepath: string)
    ensures Classify(Lower(filepath)) == Classify(filepath)
  {
    LowerIdempotent(filepath);
    LowerKeepsDots(filepath);
    BucketByLastExtension(filepath);
    BucketByLastExtension(Lower(filepath));
  }
}
