/** The small optional-value wrapper the model uses for JavaScript's
    `undefined`/`null` results. */
module Wrappers {
  datatype Option<T> = None | Some(value: T)
}

/** The viewer's shared data: the `FileNode` tree every component and script
    exchanges, the `FileType` tag, and the abstract directory tree the
    scanners read in place of the host filesystem. */
module Types {
  import opened Strings
  import opened PosixPath

  /** `children?: FileNode[]`: absent on a file, present (possibly empty) on a
      directory the scanner produced. */
  datatype Children = Absent | Present(nodes: seq<FileNode>)

  datatype FileNode = FileNode(name: string, path: string, isDirectory: bool, children: Children)

  datatype FileType = Html | Pdf | Image | Text | Unknown

  /** A name a directory listing can return: non-empty and free of '/'. */
  type EntryName = s: string | s != [] && '/' !in s witness "x"

  /** One entry of a directory listing (`fs.Dirent`): `isDirectory()` holds
      for `Dir` only; regular files, links and every other kind are `File`. */
  datatype Entry = File(name: EntryName) | Dir(name: EntryName, listing: Listing)

  /** What `readdir` gives for a directory: its entries in listing order, or
      a failure (permissions, a directory removed meanwhile). */
  datatype Listing = Unreadable | Listed(entries: seq<Entry>)

  /** Whether a walk over a node tree (`findHtml`, `copyFiles`) goes into the
      node: `item.isDirectory && item.children` (an empty array is truthy). */
  predicate Descends(n: FileNode) {
    n.isDirectory && n.children.Present?
  }

  /** The nodes such a walk treats as leaves, in depth-first pre-order. */
  function Leaves(items: seq<FileNode>): seq<FileNode>
    decreases items
  {
    if items == [] then [] else LeavesOf(items[0]) + Leaves(items[1..])
  }

  function LeavesOf(n: FileNode): seq<FileNode>
    decreases n
  {
    if Descends(n) then Leaves(n.children.nodes) else [n]
  }

  function Names(items: seq<FileNode>): (names: seq<string>)
    ensures |names| == |items|
    ensures forall i :: 0 <= i < |items| ==> names[i] == items[i].name
  {
    seq(|items|, i requires 0 <= i < |items| => items[i].name)
  }

  /** Every node at every depth carries `children` exactly when it is a directory. */
  predicate WellShaped(items: seq<FileNode>)
    decreases items
  {
    forall i :: 0 <= i < |items| ==> NodeWellShaped(items[i])
  }

  predicate NodeWellShaped(n: FileNode)
    decreases n
  {
    (n.isDirectory <==> n.children.Present?) && (n.children.Present? ==> WellShaped(n.children.nodes))
  }

  /** No node at any depth has a name starting with '.'. */
  predicate NoHidden(items: seq<FileNode>)
    decreases items
  {
    forall i :: 0 <= i < |items| ==> NodeNoHidden(items[i])
  }

  predicate NodeNoHidden(n: FileNode)
    decreases n
  {
    !StartsWith(n.name, ".") && (n.children.Present? ==> NoHidden(n.children.nodes))
  }

  /** Every node's name is a plain path segment and its path is the
      segments `dir` of its parent directory followed by that name. */
  predicate PathsFollowNames(items: seq<FileNode>, dir: seq<string>)
    decreases items
  {
    forall i :: 0 <= i < |items| ==> NodePathFollowsName(items[i], dir)
  }

  predicate NodePathFollowsName(n: FileNode, dir: seq<string>)
    decreases n
  {
    && PlainSegment(n.name)
    && n.path == RelPath(dir + [n.name])
    && (n.children.Present? ==> PathsFollowNames(n.children.nodes, dir + [n.name]))
  }

  lemma {:induction false} LeavesAppend(a: seq<FileNode>, b: seq<FileNode>)
    ensures Leaves(a + b) == Leaves(a) + Leaves(b)
    decreases a
  {
    if a != [] {
      assert (a + b)[1..] == a[1..] + b;
      LeavesAppend(a[1..], b);
    } else {
      assert a + b == b;
    }
  }

  /** The nodes a walk like `copyFiles` visits, each before its children,
      in depth-first pre-order. */
  function Visited(items: seq<FileNode>): seq<FileNode>
    decreases items
  {
    if items == [] then [] else VisitedFrom(items[0]) + Visited(items[1..])
  }

  function VisitedFrom(n: FileNode): seq<FileNode>
    decreases n
  {
    [n] + (if Descends(n) then Visited(n.children.nodes) else [])
  }

  lemma {:induction false} VisitedAppend(a: seq<FileNode>, b: seq<FileNode>)
    ensures Visited(a + b) == Visited(a) + Visited(b)
    decreases a
  {
    if a != [] {
      assert (a + b)[1..] == a[1..] + b;
      VisitedAppend(a[1..], b);
    } else {
      assert a + b == b;
    }
  }

  /** With paths that follow names, every leaf's path is a relative path of
      plain segments. */
  lemma {:induction false} LeafPathsPlain(items: seq<FileNode>, dir: seq<string>)
    requires AllPlain(dir) && PathsFollowNames(items, dir)
    ensures forall i :: 0 <= i < |Leaves(items)| ==> PlainRelative(Leaves(items)[i].path)
    decreases items
  {
    if items != [] {
      LeafPathsPlainOf(items[0], dir);
      LeafPathsPlain(items[1..], dir);
      var l := Leaves(items);
      forall i | 0 <= i < |l| ensures PlainRelative(l[i].path) {
        if i < |LeavesOf(items[0])| {
          assert l[i] == LeavesOf(items[0])[i];
        } else {
          assert l[i] == Leaves(items[1..])[i - |LeavesOf(items[0])|];
        }
      }
    }
  }

  lemma {:induction false} LeafPathsPlainOf(n: FileNode, dir: seq<string>)
    requires AllPlain(dir) && NodePathFollowsName(n, dir)
    ensures forall i :: 0 <= i < |LeavesOf(n)| ==> PlainRelative(LeavesOf(n)[i].path)
    decreases n
  {
    assert AllPlain(dir + [n.name]);
    if Descends(n) {
      LeafPathsPlain(n.children.nodes, dir + [n.name]);
    } else {
      SplitJoin(dir + [n.name]);
    }
  }
}
