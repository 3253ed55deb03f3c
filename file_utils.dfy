/** file-viewer/src/utils/fileUtils.ts: `getFileType`, the viewer's tag for
    a file name, and the case-insensitive "ends with one of these
    extensions" test that the server and the upload form write as regular
    expressions. */
module FileUtils {
  import opened Strings
  import opened Types

  const HTML_EXTENSIONS: seq<string> := ["html", "htm"]
  const IMAGE_EXTENSIONS: seq<string> := ["jpg", "jpeg", "png", "gif", "webp", "svg"]
  const TEXT_EXTENSIONS: seq<string> := ["txt", "md", "js", "ts", "json", "css"]

  /** `getFileType`: lower-case the name, take what follows its last '.'
      (the whole name when it has none) and switch on it. */
  function GetFileType(filename: string): FileType {
    var extension := AfterLastDot(Lower(filename));
    if extension in HTML_EXTENSIONS then Html
    else if extension == "pdf" then Pdf
    else if extension in IMAGE_EXTENSIONS then Image
    else if extension in TEXT_EXTENSIONS then Text
    else Unknown
  }

  /** A regular expression `/\.(e1|e2|...)$/i`: the name ends, ignoring
      case, with '.' followed by one of `extensions`. */
  predicate MatchesExtension(name: string, extensions: seq<string>) {
    exists e :: e in extensions && EndsWith(Lower(name), "." + e)
  }

  predicate DotFree(extensions: seq<string>) {
    forall e :: e in extensions ==> '.' !in e
  }

  /** Such a suffix test holds exactly when the name has a '.' and the
      lower-cased text after its last '.' is one of the extensions. */
  lemma MatchesExtensionIffLastExtension(name: string, extensions: seq<string>)
    requires DotFree(extensions)
    ensures MatchesExtension(name, extensions)
        <==> '.' in name && AfterLastDot(Lower(name)) in extensions
  {
    LowerKeepsDots(name);
    if MatchesExtension(name, extensions) {
      var e :| e in extensions && EndsWith(Lower(name), "." + e);
      EndsWithDotExt(Lower(name), e);
    }
    if '.' in name && AfterLastDot(Lower(name)) in extensions {
      var e := AfterLastDot(Lower(name));
      EndsWithDotExt(Lower(name), e);
    }
  }

  /** None of the listed extensions holds a '.'. */
  lemma ExtensionListsDotFree()
    ensures DotFree(HTML_EXTENSIONS) && DotFree(["pdf"])
    ensures DotFree(IMAGE_EXTENSIONS) && DotFree(TEXT_EXTENSIONS)
  {
  }

  /** No extension is listed under two tags. */
  lemma ExtensionListsDisjoint(e: string)
    ensures e in TEXT_EXTENSIONS ==> e !in HTML_EXTENSIONS && e != "pdf" && e !in IMAGE_EXTENSIONS
    ensures e in IMAGE_EXTENSIONS ==> e !in HTML_EXTENSIONS && e != "pdf"
  {
  }

  /** For a name with a '.', each tag is decided by the name's ending:
      'html' for .html/.htm, 'pdf' for .pdf, 'image' for the six image
      endings, 'text' for the six text endings, 'unknown' otherwise. */
  lemma GetFileTypeByEnding(name: string)
    requires '.' in name
    ensures GetFileType(name) == Html <==> MatchesExtension(name, HTML_EXTENSIONS)
    ensures GetFileType(name) == Pdf <==> MatchesExtension(name, ["pdf"])
    ensures GetFileType(name) == Image <==> MatchesExtension(name, IMAGE_EXTENSIONS)
    ensures GetFileType(name) == Text <==> MatchesExtension(name, TEXT_EXTENSIONS)
    ensures GetFileType(name) == Unknown <==>
      && !MatchesExtension(name, HTML_EXTENSIONS) && !MatchesExtension(name, ["pdf"])
      && !MatchesExtension(name, IMAGE_EXTENSIONS) && !MatchesExtension(name, TEXT_EXTENSIONS)
  {
    ExtensionListsDotFree();
    MatchesExtensionIffLastExtension(name, HTML_EXTENSIONS);
    MatchesExtensionIffLastExtension(name, ["pdf"]);
    MatchesExtensionIffLastExtension(name, IMAGE_EXTENSIONS);
    MatchesExtensionIffLastExtension(name, TEXT_EXTENSIONS);
    ExtensionListsDisjoint(AfterLastDot(Lower(name)));
  }

  /** A name ending in '.' has the empty extension and is 'unknown'. */
  lemma NameEndingInDotIsUnknown(name: string)
    requires name != [] && name[|name| - 1] == '.'
    ensures GetFileType(name) == Unknown
  {
    assert Lower(name)[|name| - 1] == '.';
  }

  /** A name without '.' is tagged by the whole lower-cased name, so it is
      a 'pdf' exactly when it is "pdf" in any case. */
  lemma DotlessNameTaggedByWholeName(name: string)
    requires '.' !in name
    ensures AfterLastDot(Lower(name)) == Lower(name)
    ensures GetFileType(name) == Pdf <==> Lower(name) == "pdf"
  {
    LowerKeepsDots(name);
    AfterLastDotSpec(Lower(name));
  }

  /** A file called "PDF" is a 'pdf'. */
  lemma DotlessPdf()
    ensures GetFileType("PDF") == Pdf
  {
    assert '.' !in "PDF";
    assert Lower("PDF") == "pdf";
    DotlessNameTaggedByWholeName("PDF");
  }

  /** `getFileType` ignores letter case: two names that lower-case alike
      get the same tag. */
  lemma GetFileTypeIgnoresCase(a: string, b: string)
    requires Lower(a) == Lower(b)
    ensures GetFileType(a) == GetFileType(b)
  {
  }

  /** "Photo.JPEG" is an 'image', as "photo.jpeg" is. */
  lemma UpperCaseExtension()
    ensures GetFileType("Photo.JPEG") == Image
    ensures GetFileType("Photo.JPEG") == GetFileType("photo.jpeg")
  {
    var n := "Photo.JPEG";
    assert Lower(n) == "photo.jpeg";
    assert Lower("photo.jpeg") == "photo.jpeg";
    GetFileTypeIgnoresCase(n, "photo.jpeg");
    assert '.' in n by { assert n[5] == '.'; }
    assert MatchesExtension(n, IMAGE_EXTENSIONS) by {
      assert "jpeg" in IMAGE_EXTENSIONS;
      assert EndsWith(Lower(n), "." + "jpeg");
    }
    GetFileTypeByEnding(n);
  }

  /** Only the last extension counts: "page.html.txt" is 'text'. */
  lemma OnlyLastExtensionCounts()
    ensures GetFileType("page.html.txt") == Text
  {
    var n := "page.html.txt";
    assert '.' in n by { assert n[4] == '.'; }
    assert MatchesExtension(n, TEXT_EXTENSIONS) by {
      assert Lower(n) == n;
      assert "txt" in TEXT_EXTENSIONS;
      assert EndsWith(Lower(n), "." + "txt");
    }
    GetFileTypeByEnding(n);
  }
}
