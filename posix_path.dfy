/** Node.js `path.posix`: `join`, `normalize` and `dirname`, as the scanner,
    the content endpoint and the export scripts use them. A path is split at
    every '/' into segments; `normalize` drops empty and "." segments and lets
    ".." cancel the segment before it (above the root of an absolute path it
    is dropped, at the front of a relative path it is kept). */
module PosixPath {
  import opened Strings

  /** The segments of `p` between its '/' characters (`p.split('/')`). */
  function Split(p: string): (segs: seq<string>)
    ensures |segs| >= 1
  {
    if p == [] then [""]
    else if p[0] == '/' then [""] + Split(p[1..])
    else
      var rest := Split(p[1..]);
      [[p[0]] + rest[0]] + rest[1..]
  }

  /** The segments joined back with '/' (`segs.join('/')`). */
  function JoinSegments(segs: seq<string>): string {
    if segs == [] then ""
    else if |segs| == 1 then segs[0]
    else segs[0] + "/" + JoinSegments(segs[1..])
  }

  /** A segment that `normalize` keeps as it is: a directory entry name. */
  predicate PlainSegment(s: string) {
    s != "" && '/' !in s && s != "." && s != ".."
  }

  predicate AllPlain(segs: seq<string>) {
    forall i :: 0 <= i < |segs| ==> PlainSegment(segs[i])
  }

  /** The relative path whose segments are `segs`, and the absolute one. */
  function RelPath(segs: seq<string>): string { JoinSegments(segs) }
  function AbsPath(segs: seq<string>): string { "/" + JoinSegments(segs) }

  /** One segment of `normalizeString`: "" and "." vanish, ".." removes the
      last kept segment unless that is itself "..", and is kept (relative
      paths) or dropped (absolute paths) when nothing is left to remove. */
  function Step(stack: seq<string>, seg: string, aboveRoot: bool): seq<string> {
    if seg == "" || seg == "." then stack
    else if seg == ".." then
      if stack != [] && stack[|stack| - 1] != ".." then stack[..|stack| - 1]
      else if aboveRoot then stack + [".."]
      else stack
    else stack + [seg]
  }

  function Resolve(stack: seq<string>, segs: seq<string>, aboveRoot: bool): seq<string>
    decreases |segs|
  {
    if segs == [] then stack else Resolve(Step(stack, segs[0], aboveRoot), segs[1..], aboveRoot)
  }

  /** `path.posix.normalize(p)`. */
  function Normalize(p: string): string {
    if p == [] then "."
    else
      var isAbsolute := p[0] == '/';
      var trailing := p[|p| - 1] == '/';
      var body := JoinSegments(Resolve([], Split(p), !isAbsolute));
      if body == [] then
        (if isAbsolute then "/" else if trailing then "./" else ".")
      else
        (if isAbsolute then "/" else "") + body + (if trailing then "/" else "")
  }

  /** `path.posix.join(a, b)`: the non-empty arguments joined with '/', then
      normalised; "." when both are empty. */
  function Join(a: string, b: string): string {
    if a == [] && b == [] then "."
    else Normalize(if a == [] then b else if b == [] then a else a + "/" + b)
  }

  /** The index `dirname` cuts at: scanning down from index `i` to 1, the
      first '/' met after a character that is not '/'; -1 if there is none. */
  function DirEnd(p: string, i: int, matchedSlash: bool): (end: int)
    requires i < |p|
    ensures end == -1 || (1 <= end <= i && p[end] == '/')
    decreases i
  {
    if i < 1 then -1
    else if p[i] == '/' then
      (if !matchedSlash then i else DirEnd(p, i - 1, matchedSlash))
    else DirEnd(p, i - 1, false)
  }

  /** `path.posix.dirname(p)`. */
  function Dirname(p: string): string {
    if p == [] then "."
    else
      var hasRoot := p[0] == '/';
      var end := DirEnd(p, |p| - 1, true);
      if end == -1 then (if hasRoot then "/" else ".")
      else if hasRoot && end == 1 then "//"
      else p[..end]
  }

  // ---------------------------------------------------------------------
  // Splitting and joining

  lemma {:induction false} SplitNoSlash(p: string)
    requires '/' !in p
    ensures Split(p) == [p]
  {
    if p != [] {
      SplitNoSlash(p[1..]);
      assert [p[0]] + p[1..] == p;
    }
  }

  /** Splitting `a + "/" + b` splits `a` and `b` separately. */
  lemma {:induction false} SplitAppend(a: string, b: string)
    ensures Split(a + "/" + b) == Split(a) + Split(b)
  {
    var s := a + "/" + b;
    if a == [] {
      assert s[0] == '/' && s[1..] == b;
    } else {
      assert s[0] == a[0] && s[1..] == a[1..] + "/" + b;
      SplitAppend(a[1..], b);
    }
  }

  lemma {:induction false} JoinSegmentsAppend(a: seq<string>, b: seq<string>)
    requires a != [] && b != []
    ensures JoinSegments(a + b) == JoinSegments(a) + "/" + JoinSegments(b)
  {
    if |a| == 1 {
      assert (a + b)[1..] == b;
    } else {
      assert (a + b)[1..] == a[1..] + b;
      JoinSegmentsAppend(a[1..], b);
    }
  }

  /** Splitting a joined list of plain segments gives the list back. */
  lemma {:induction false} SplitJoin(segs: seq<string>)
    requires segs != [] && AllPlain(segs)
    ensures Split(JoinSegments(segs)) == segs
  {
    if |segs| == 1 {
      SplitNoSlash(segs[0]);
    } else {
      SplitJoin(segs[1..]);
      SplitNoSlash(segs[0]);
      SplitAppend(segs[0], JoinSegments(segs[1..]));
    }
  }

  lemma {:induction false} JoinSegmentsNoSlashInside(segs: seq<string>)
    requires AllPlain(segs)
    ensures segs == [] <==> JoinSegments(segs) == []
    ensures segs != [] ==> JoinSegments(segs)[0] != '/'
    ensures segs != [] ==> JoinSegments(segs)[|JoinSegments(segs)| - 1] != '/'
  {
    if |segs| > 1 {
      JoinSegmentsNoSlashInside(segs[1..]);
    }
  }

  // ---------------------------------------------------------------------
  // Resolving segments

  lemma {:induction false} ResolveAppend(stack: seq<string>, s1: seq<string>, s2: seq<string>, aboveRoot: bool)
    ensures Resolve(stack, s1 + s2, aboveRoot) == Resolve(Resolve(stack, s1, aboveRoot), s2, aboveRoot)
    decreases |s1|
  {
    if s1 == [] {
      assert s1 + s2 == s2;
    } else {
      assert (s1 + s2)[1..] == s1[1..] + s2;
      ResolveAppend(Step(stack, s1[0], aboveRoot), s1[1..], s2, aboveRoot);
    }
  }

  /** The segments `normalize` keeps when there is no "..": all but "" and ".". */
  function Kept(segs: seq<string>): (r: seq<string>)
    ensures |r| <= |segs|
  {
    if segs == [] then []
    else (if segs[0] == "" || segs[0] == "." then [] else [segs[0]]) + Kept(segs[1..])
  }

  /** Without "..", resolving only drops the "" and "." segments. */
  lemma {:induction false} ResolveWithoutDotDot(stack: seq<string>, segs: seq<string>, aboveRoot: bool)
    requires ".." !in segs
    ensures Resolve(stack, segs, aboveRoot) == stack + Kept(segs)
    decreases |segs|
  {
    if segs != [] {
      assert ".." !in segs[1..];
      ResolveWithoutDotDot(Step(stack, segs[0], aboveRoot), segs[1..], aboveRoot);
    }
  }

  lemma {:induction false} KeptPlain(segs: seq<string>)
    requires AllPlain(segs)
    ensures Kept(segs) == segs
  {
    if segs != [] {
      KeptPlain(segs[1..]);
    }
  }

  lemma {:induction false} KeptIsPlain(segs: seq<string>)
    requires ".." !in segs
    requires forall i :: 0 <= i < |segs| ==> '/' !in segs[i]
    ensures AllPlain(Kept(segs))
  {
    if segs != [] {
      KeptIsPlain(segs[1..]);
    }
  }

  lemma SplitHasNoSlash(p: string)
    ensures forall i :: 0 <= i < |Split(p)| ==> '/' !in Split(p)[i]
  {
    if p != [] {
      SplitHasNoSlash(p[1..]);
      var rest := Split(p[1..]);
      if p[0] != '/' {
        assert forall i :: 1 <= i < |Split(p)| ==> Split(p)[i] == rest[i];
      }
    }
  }

  lemma ResolvePlain(stack: seq<string>, segs: seq<string>, aboveRoot: bool)
    requires AllPlain(segs)
    ensures Resolve(stack, segs, aboveRoot) == stack + segs
  {
    assert ".." !in segs by {
      forall k | 0 <= k < |segs| ensures segs[k] != ".." {
        assert PlainSegment(segs[k]);
      }
    }
    ResolveWithoutDotDot(stack, segs, aboveRoot);
    KeptPlain(segs);
  }

  // ---------------------------------------------------------------------
  // Consequences for `join`

  /** Joining a normalised relative path (or "") with an entry name puts a
      '/' between them and changes nothing else: the scanner's
      `path.join(relativePath, entry.name)`. */
  lemma JoinRelative(dir: seq<string>, name: string)
    requires AllPlain(dir) && PlainSegment(name)
    ensures Join(RelPath(dir), name) == RelPath(dir + [name])
  {
    SplitNoSlash(name);
    assert AllPlain(dir + [name]);
    if dir == [] {
      assert dir + [name] == [name];
      ResolvePlain([], [name], true);
      JoinSegmentsNoSlashInside([name]);
      NormalizeRelative(name, [name]);
    } else {
      var rel := RelPath(dir);
      var q := rel + "/" + name;
      JoinSegmentsNoSlashInside(dir);
      SplitJoin(dir);
      SplitAppend(rel, name);
      ResolvePlain([], dir + [name], true);
      JoinSegmentsAppend(dir, [name]);
      assert q[0] == rel[0];
      assert q[|q| - 1] == name[|name| - 1];
      NormalizeRelative(q, dir + [name]);
    }
  }

  /** `normalize` of a relative path with no '/' at either end whose
      segments resolve to the plain `segs`. */
  lemma NormalizeRelative(q: string, segs: seq<string>)
    requires q != [] && q[0] != '/' && q[|q| - 1] != '/'
    requires Resolve([], Split(q), true) == segs && segs != [] && AllPlain(segs)
    ensures Normalize(q) == RelPath(segs)
  {
    JoinSegmentsNoSlashInside(segs);
    assert Normalize(q) == "" + RelPath(segs) + "";
  }

  /** The segments of an absolute normalised path, and what resolving them gives. */
  lemma SplitAbsPath(segs: seq<string>, aboveRoot: bool)
    requires AllPlain(segs)
    ensures Split(AbsPath(segs)) == [""] + (if segs == [] then [""] else segs)
    ensures Resolve([], Split(AbsPath(segs)), aboveRoot) == segs
  {
    assert AbsPath(segs) == "" + "/" + JoinSegments(segs);
    SplitAppend("", JoinSegments(segs));
    if segs != [] {
      SplitJoin(segs);
      ResolveAppend([], [""], segs, aboveRoot);
      ResolvePlain([], segs, aboveRoot);
    }
  }

  /** `normalize` of an absolute path whose segments resolve to `segs`. */
  lemma NormalizeAbsolute(q: string, segs: seq<string>)
    requires q != [] && q[0] == '/'
    requires Resolve([], Split(q), false) == segs && AllPlain(segs)
    ensures Normalize(q) == if segs == [] then "/" else AbsPath(segs) + (if q[|q| - 1] == '/' then "/" else "")
  {
    JoinSegmentsNoSlashInside(segs);
  }

  lemma JoinSegmentsPrefix(a: seq<string>, b: seq<string>)
    ensures StartsWith(JoinSegments(a + b), JoinSegments(a))
  {
    if a == [] {
    } else if b == [] {
      assert a + b == a;
    } else {
      JoinSegmentsAppend(a, b);
    }
  }

  /** `join` of an absolute normalised root and a non-empty path, given what
      the path's segments resolve to on top of the root's. */
  lemma JoinAbsolute(root: seq<string>, p: string, segs: seq<string>)
    requires AllPlain(root) && p != []
    requires Resolve(root, Split(p), false) == segs && AllPlain(segs)
    ensures Join(AbsPath(root), p)
         == if segs == [] then "/" else AbsPath(segs) + (if p[|p| - 1] == '/' then "/" else "")
  {
    var r := AbsPath(root);
    var q := r + "/" + p;
    assert Join(r, p) == Normalize(q);
    SplitAppend(r, p);
    SplitAbsPath(root, false);
    ResolveAppend([], Split(r), Split(p), false);
    assert q[0] == '/';
    assert q[|q| - 1] == p[|p| - 1];
    NormalizeAbsolute(q, segs);
  }

  /** Joining an absolute normalised root with a path none of whose segments
      is ".." gives a path that starts with the root. */
  lemma JoinWithoutDotDotStaysUnder(root: seq<string>, p: string)
    requires AllPlain(root)
    requires p != [] && ".." !in Split(p)
    ensures StartsWith(Join(AbsPath(root), p), AbsPath(root))
  {
    var r := AbsPath(root);
    var kept := Kept(Split(p));
    ResolveWithoutDotDot(root, Split(p), false);
    SplitHasNoSlash(p);
    KeptIsPlain(Split(p));
    var segs := root + kept;
    assert AllPlain(segs);
    JoinAbsolute(root, p, segs);
    JoinSegmentsPrefix(root, kept);
    if segs == [] {
      assert root == [];
    } else {
      var tail := if p[|p| - 1] == '/' then "/" else "";
      assert Join(r, p) == "/" + JoinSegments(segs) + tail;
      assert ("/" + JoinSegments(segs) + tail)[..|r|] == "/" + JoinSegments(segs)[..|JoinSegments(root)|];
    }
  }

  lemma SplitUpThenDown(sib: string, rest: string)
    requires PlainSegment(sib) && PlainSegment(rest)
    ensures Split("../" + sib + "/" + rest) == ["..", sib, rest]
  {
    UpThenDownSpelled(sib, rest);
    SplitAppend("..", sib + "/" + rest);
    SplitAppend(sib, rest);
    SplitNoSlash("..");
    SplitNoSlash(sib);
    SplitNoSlash(rest);
  }

  lemma UpThenDownSpelled(sib: string, rest: string)
    ensures "../" + sib + "/" + rest == ".." + "/" + (sib + "/" + rest)
  {
    assert "../" == ".." + "/";
  }

  /** ".." out of an absolute normalised path into a sibling entry. */
  lemma JoinIntoSibling(parent: seq<string>, last: string, sib: string, rest: string)
    requires AllPlain(parent) && PlainSegment(last) && PlainSegment(sib) && PlainSegment(rest)
    ensures Join(AbsPath(parent + [last]), "../" + sib + "/" + rest) == AbsPath(parent + [sib, rest])
  {
    var segsRoot := parent + [last];
    var p := "../" + sib + "/" + rest;
    var segs := parent + [sib, rest];
    SplitUpThenDown(sib, rest);
    assert Resolve(segsRoot, ["..", sib, rest], false) == segs by {
      assert Step(segsRoot, "..", false) == parent;
      ResolveAppend(parent, [sib], [rest], false);
    }
    assert AllPlain(segsRoot) && AllPlain(segs);
    assert p[|p| - 1] == rest[|rest| - 1];
    JoinAbsolute(segsRoot, p, segs);
  }

  /** A plain segment with more characters (and no '/') appended stays plain. */
  lemma PlainExtended(last: string, extra: string)
    requires PlainSegment(last) && extra != [] && '/' !in extra
    ensures PlainSegment(last + extra)
  {
    var sib := last + extra;
    forall k | 0 <= k < |sib| ensures sib[k] != '/' {
      if k < |last| { assert sib[k] == last[k]; } else { assert sib[k] == extra[k - |last|]; }
    }
    if |sib| <= 2 {
      assert |last| == 1 && sib[0] == last[0];
      assert last == [sib[0]];
    }
  }

  /** An absolute path of plain segments, cut after the parent's '/'. */
  lemma AbsPathUnder(parent: seq<string>, tail: seq<string>, pre: string)
    requires tail != []
    requires pre == if parent == [] then "/" else "/" + JoinSegments(parent) + "/"
    ensures AbsPath(parent + tail) == pre + JoinSegments(tail)
  {
    if parent == [] {
      assert parent + tail == tail;
    } else {
      JoinSegmentsAppend(parent, tail);
    }
  }

  lemma SiblingRegrouped(pre: string, last: string, extra: string, rest: string)
    ensures pre + ((last + extra) + "/" + rest) == (pre + last) + (extra + "/" + rest)
  {
  }

  /** The string comparison behind the sibling weakness. */
  lemma SiblingStrings(parent: seq<string>, last: string, extra: string, rest: string)
    requires extra != [] && extra[0] != '/'
    ensures var root := AbsPath(parent + [last]);
      var full := AbsPath(parent + [last + extra, rest]);
      && StartsWith(full, root) && full != root && !StartsWith(full, root + "/")
  {
    var sib := last + extra;
    var root := AbsPath(parent + [last]);
    var full := AbsPath(parent + [sib, rest]);
    var pre := if parent == [] then "/" else "/" + JoinSegments(parent) + "/";
    AbsPathUnder(parent, [last], pre);
    AbsPathUnder(parent, [sib, rest], pre);
    assert [sib, rest][1..] == [rest];
    SiblingRegrouped(pre, last, extra, rest);
    var after := extra + "/" + rest;
    assert full == root + after;
    assert full[..|root|] == root;
    assert full[|root|] == after[0] == extra[0];
  }

  /** The weakness of a string-prefix containment test: ".." out of the root
      into a sibling directory whose name extends the root's last segment
      lands on a path that starts with the root string, although it is not
      the root and not below it. */
  lemma SiblingPassesPrefixTest(parent: seq<string>, last: string, extra: string, rest: string)
    requires AllPlain(parent) && PlainSegment(last) && extra != [] && '/' !in extra
    requires PlainSegment(rest)
    ensures var root := AbsPath(parent + [last]);
      var full := Join(root, "../" + last + extra + "/" + rest);
      && full == AbsPath(parent + [last + extra, rest])
      && StartsWith(full, root)
      && full != root
      && !StartsWith(full, root + "/")
  {
    PlainExtended(last, extra);
    JoinIntoSibling(parent, last, last + extra, rest);
    assert "../" + last + extra + "/" + rest == "../" + (last + extra) + "/" + rest;
    SiblingStrings(parent, last, extra, rest);
  }

  // ---------------------------------------------------------------------
  // Mirroring relative paths under another directory

  /** A non-empty relative path made of plain segments only, such as the
      path of a scanned node. */
  predicate PlainRelative(p: string) {
    AllPlain(Split(p))
  }

  /** Joining the segments of any string with '/' gives the string back. */
  lemma {:induction false} JoinSplit(p: string)
    ensures JoinSegments(Split(p)) == p
  {
    if p != [] {
      JoinSplit(p[1..]);
      var rest := Split(p[1..]);
      if p[0] == '/' {
        assert JoinSegments([""] + rest) == "" + "/" + JoinSegments(rest) by {
          assert ([""] + rest)[1..] == rest;
        }
      } else {
        var segs := [[p[0]] + rest[0]] + rest[1..];
        if |rest| == 1 {
          assert JoinSegments(segs) == [p[0]] + rest[0];
        } else {
          assert segs[1..] == rest[1..];
          assert JoinSegments(rest) == rest[0] + "/" + JoinSegments(rest[1..]);
        }
        assert [p[0]] + p[1..] == p;
      }
    }
  }

  /** `join` of a relative base directory (whose own segments resolve to
      `baseSegs`) and a plain relative path appends the path's segments. */
  lemma JoinRelativeBase(base: string, baseSegs: seq<string>, segs: seq<string>)
    requires base != [] && base[0] != '/'
    requires Resolve([], Split(base), true) == baseSegs && AllPlain(baseSegs)
    requires segs != [] && AllPlain(segs)
    ensures Join(base, RelPath(segs)) == RelPath(baseSegs + segs)
  {
    var p := RelPath(segs);
    JoinSegmentsNoSlashInside(segs);
    var q := base + "/" + p;
    SplitAppend(base, p);
    SplitJoin(segs);
    ResolveAppend([], Split(base), segs, true);
    ResolvePlain(baseSegs, segs, true);
    assert AllPlain(baseSegs + segs);
    assert q[0] == base[0];
    assert q[|q| - 1] == p[|p| - 1];
    NormalizeRelative(q, baseSegs + segs);
  }

  /** `join` of an absolute normalised directory and a plain relative path. */
  lemma JoinAbsoluteBase(rootSegs: seq<string>, segs: seq<string>)
    requires AllPlain(rootSegs) && segs != [] && AllPlain(segs)
    ensures Join(AbsPath(rootSegs), RelPath(segs)) == AbsPath(rootSegs + segs)
  {
    var p := RelPath(segs);
    JoinSegmentsNoSlashInside(segs);
    SplitJoin(segs);
    ResolvePlain(rootSegs, segs, false);
    assert AllPlain(rootSegs + segs);
    JoinAbsolute(rootSegs, p, rootSegs + segs);
  }

  /** The path of plain segments `a + b`, written as the two paths joined by '/'. */
  lemma RelPathConcat(a: seq<string>, b: seq<string>)
    requires a != [] && b != []
    ensures RelPath(a + b) == RelPath(a) + "/" + RelPath(b)
    ensures AbsPath(a + b) == AbsPath(a) + "/" + RelPath(b)
  {
    JoinSegmentsAppend(a, b);
  }

  /** Scanning down from index `i`, past non-'/' characters, `dirname` stops
      at the '/' at index `j`. */
  lemma {:induction false} DirEndFindsSlash(p: string, i: int, j: int)
    requires 1 <= j <= i < |p| && p[j] == '/'
    requires forall k :: j < k <= i ==> p[k] != '/'
    ensures DirEnd(p, i, false) == j
    decreases i
  {
    if i > j {
      DirEndFindsSlash(p, i - 1, j);
    }
  }

  /** `dirname` of a relative path of two or more plain segments drops the
      last segment. */
  lemma DirnameRelPath(segs: seq<string>)
    requires AllPlain(segs) && |segs| >= 2
    ensures Dirname(RelPath(segs)) == RelPath(segs[..|segs| - 1])
  {
    var init, last := segs[..|segs| - 1], segs[|segs| - 1];
    assert segs == init + [last];
    JoinSegmentsAppend(init, [last]);
    var q := RelPath(init);
    var p := RelPath(segs);
    assert p == q + "/" + last;
    JoinSegmentsNoSlashInside(init);
    assert p[0] == q[0] != '/';
    assert PlainSegment(last);
    forall k | |q| < k < |p| ensures p[k] != '/' {
      assert p[k] == last[k - |q| - 1];
    }
    DirEndFindsSlash(p, |p| - 2, |q|);
    assert DirEnd(p, |p| - 1, true) == |q|;
    assert p[..|q|] == q;
  }

  /** "./" followed by a path of plain segments resolves to those segments. */
  lemma DotSlashResolves(d: string, segs: seq<string>)
    requires d == "." + "/" + JoinSegments(segs) && AllPlain(segs) && segs != []
    ensures Resolve([], Split(d), true) == segs
  {
    SplitAppend(".", JoinSegments(segs));
    SplitNoSlash(".");
    SplitJoin(segs);
    ResolveAppend([], ["."], segs, true);
    ResolvePlain([], segs, true);
  }
}
